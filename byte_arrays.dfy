/** Byte arrays as sequences, with Java's `copyOfRange` and the `join` used to build identifiers. */
module ByteArrays {
  import opened Common

  type Bytes = seq<bv8>

  /** Concatenation of the parts in order, with no delimiter. */
  function Join(parts: seq<Bytes>): Bytes
  {
    if parts == [] then [] else Join(parts[..|parts| - 1]) + parts[|parts| - 1]
  }

  /** Joining three parts is their concatenation. */
  lemma JoinThree(a: Bytes, b: Bytes, c: Bytes)
    ensures Join([a, b, c]) == a + b + c
  {
    assert [a][..0] == [];
    assert Join([a]) == [] + a == a;
    assert [a, b][..1] == [a];
    assert [a, b, c][..2] == [a, b];
  }

  /** Joining four parts is their concatenation. */
  lemma JoinFour(a: Bytes, b: Bytes, c: Bytes, d: Bytes)
    ensures Join([a, b, c, d]) == a + b + c + d
  {
    assert [a, b, c, d][..3] == [a, b, c];
    JoinThree(a, b, c);
  }

  function Zeros(n: nat): (r: Bytes)
    ensures |r| == n && forall k :: 0 <= k < n ==> r[k] == 0
  {
    if n == 0 then [] else Zeros(n - 1) + [0]
  }

  /** The bytes `b[from..to)`, padded with zero bytes where `to` runs past the end of `b`. */
  function Window(b: Bytes, from: nat, to: int): (r: Bytes)
    requires from <= |b| && from <= to
    ensures |r| == to - from
    ensures forall k :: 0 <= k < |r| ==> r[k] == (if from + k < |b| then b[from + k] else 0)
  {
    if to <= |b| then b[from..to] else b[from..] + Zeros(to - |b|)
  }

  /** `java.util.Arrays.copyOfRange`: a negative length is rejected first, then a start outside the array. */
  function CopyOfRange(b: Bytes, from: int, to: int): (r: Result<Bytes>)
    ensures r.Ok? <==> 0 <= from <= |b| && from <= to
    ensures r.Ok? ==> |r.value| == to - from
    ensures r.Ok? && to <= |b| ==> r.value == b[from..to]
    ensures from > to ==> r == Err(IllegalArgument)
  {
    if from > to then Err(IllegalArgument)
    else if from < 0 || from > |b| then Err(IndexOutOfBounds)
    else Ok(Window(b, from, to))
  }

  /** Slicing a concatenation at the boundaries of one of its parts gives that part back. */
  lemma CopyOfRangeOfPart(p: Bytes, m: Bytes, q: Bytes)
    ensures CopyOfRange(p + m + q, |p|, |p| + |m|) == Ok(m)
  {
  }

  /** Slicing a concatenation from the end of its first part to the end gives the rest. */
  lemma CopyOfRangeOfTail(p: Bytes, q: Bytes)
    ensures CopyOfRange(p + q, |p|, |p + q|) == Ok(q)
  {
    assert (p + q)[|p|..|p + q|] == q;
  }
}
