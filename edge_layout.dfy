/**
 * Edge identifiers as pure functions of their bytes: `start ‖ infix ‖ end [‖ suffix]`, built by
 * concatenation and taken apart by slicing at offsets that depend only on lengths.
 * Each function here is what the corresponding accessor of an edge IID returns (or throws).
 */
module EdgeLayout {
  import opened Common
  import opened ByteArrays
  import opened Encoding

  /** The three kinds of edge IID. */
  datatype Layout =
    | TypeEdge    // type to type: both ends are type IIDs
    | ThingEdge   // thing to thing, with an optional suffix
    | InwardsIsa  // type to thing, always with the ISA-in infix

  /** `VertexIID.Thing.extract(bytes, from)`: a thing IID read at `from`. */
  function ExtractThing(b: Bytes, from: int): Result<Bytes> {
    CopyOfRange(b, from, from + THING_LENGTH)
  }

  /**
   * `InfixIID.Type.extract(bytes, from)` (when `typeFamily`) or `InfixIID.Thing.extract(bytes, from)`:
   * the head byte at `from` must name an encoding of that family, and says how many bytes the
   * infix takes; the infix is those bytes, zero-padded past the end.
   */
  function ExtractInfix(b: Bytes, from: int, typeFamily: bool): (r: Result<Bytes>)
    ensures r.Ok? <==> (0 <= from < |b| && DecodeHead(b[from]).Some?
                        && IsTypeEdge(DecodeHead(b[from]).value.encoding) == typeFamily)
    ensures r.Ok? ==> 0 <= from < |b| && ValidInfix(r.value) && r.value[0] == b[from]
    ensures r.Ok? ==> r.value == Window(b, from, from + |r.value|)
    ensures r.Ok? ==> IsTypeEdge(CodeOf(r.value).encoding) == typeFamily
    ensures r.Ok? && typeFamily ==> |r.value| == 1
    ensures from < 0 || from >= |b| ==> r == Err(IndexOutOfBounds)
    ensures 0 <= from < |b| && DecodeHead(b[from]).None? ==> r == Err(UnknownInfix)
    ensures (0 <= from < |b| && DecodeHead(b[from]).Some?
             && IsTypeEdge(DecodeHead(b[from]).value.encoding) != typeFamily) ==> r == Err(UnknownInfix)
  {
    if from < 0 || from >= |b| then Err(IndexOutOfBounds)
    else
      match DecodeHead(b[from])
      case None => Err(UnknownInfix)
      case Some(c) =>
        if IsTypeEdge(c.encoding) != typeFamily then Err(UnknownInfix)
        else CopyOfRange(b, from, from + InfixLength(c.encoding))
  }

  /** `start()`: the first `TYPE_LENGTH` (type and ISA edges) or `THING_LENGTH` (thing edges) bytes. */
  function Start(layout: Layout, b: Bytes): Bytes {
    if layout == ThingEdge then ExtractThing(b, 0).value else CopyOfRange(b, 0, TYPE_LENGTH).value
  }

  /** `infixIndex()`: where the infix begins. */
  function InfixIndex(layout: Layout, b: Bytes): int {
    |Start(layout, b)|
  }

  /** `infix()`: read at `TYPE_LENGTH` for a type edge, at `infixIndex()` for a thing edge, fixed for an ISA edge. */
  function Infix(layout: Layout, b: Bytes): (r: Result<Bytes>)
    ensures r.Ok? ==> ValidInfix(r.value)
    ensures r.Ok? ==> (IsTypeEdge(CodeOf(r.value).encoding) <==> layout == TypeEdge)
  {
    match layout
    case TypeEdge => ExtractInfix(b, TYPE_LENGTH, true)
    case ThingEdge => ExtractInfix(b, InfixIndex(layout, b), false)
    case InwardsIsa => IsaInIsValid(); Ok(ISA_IN)
  }

  /** `endIndex()`: where the end begins, right after the infix. */
  function EndIndex(layout: Layout, b: Bytes): Result<int> {
    var infix :- Infix(layout, b);
    Ok(InfixIndex(layout, b) + |infix|)
  }

  /** `end()`: the last `TYPE_LENGTH` bytes, the thing IID at `endIndex()`, or everything after `TYPE_LENGTH + 1`. */
  function End(layout: Layout, b: Bytes): Result<Bytes> {
    match layout
    case TypeEdge => CopyOfRange(b, |b| - TYPE_LENGTH, |b|)
    case ThingEdge =>
      var at :- EndIndex(layout, b);
      ExtractThing(b, at)
    case InwardsIsa => CopyOfRange(b, TYPE_LENGTH + 1, |b|)
  }

  /** `suffixIndex()`: where the suffix begins, right after the end. */
  function SuffixIndex(layout: Layout, b: Bytes): Result<int> {
    var at :- EndIndex(layout, b);
    var end :- End(layout, b);
    Ok(at + |end|)
  }

  /** `Thing.suffix()`: everything from `suffixIndex()` to the end of the bytes. */
  function Suffix(b: Bytes): Result<Bytes> {
    var at :- SuffixIndex(ThingEdge, b);
    CopyOfRange(b, at, |b|)
  }

  /** `encoding()`: the edge encoding named by the infix. */
  function EdgeEncodingOf(layout: Layout, b: Bytes): Result<EdgeEncoding> {
    var infix :- Infix(layout, b);
    Ok(CodeOf(infix).encoding)
  }

  /** `isOutwards()`: whether the infix is an outward one. */
  function IsOutwards(layout: Layout, b: Bytes): Result<bool> {
    var infix :- Infix(layout, b);
    Ok(CodeOf(infix).direction == Out)
  }

  /** `Type.of(start, infix, end)`. */
  function TypeOf(start: Bytes, infix: InfixCode, end: Bytes): (r: Bytes)
    ensures r == start + [InfixHead(infix)] + end
  {
    JoinThree(start, [InfixHead(infix)], end);
    Join([start, [InfixHead(infix)], end])
  }

  /** `Thing.of(start, infix, end)`. */
  function ThingOf(start: Bytes, infix: Bytes, end: Bytes): (r: Bytes)
    ensures r == start + infix + end
  {
    JoinThree(start, infix, end);
    Join([start, infix, end])
  }

  /** `Thing.of(start, infix, end, suffix)`. */
  function ThingWithSuffixOf(start: Bytes, infix: Bytes, end: Bytes, suffix: Bytes): (r: Bytes)
    ensures r == start + infix + end + suffix
  {
    JoinFour(start, infix, end, suffix);
    Join([start, infix, end, suffix])
  }

  /** `InwardsISA.of(start, end)`. */
  function InwardsIsaOf(start: Bytes, end: Bytes): (r: Bytes)
    ensures r == start + ISA_IN + end
  {
    JoinThree(start, ISA_IN, end);
    Join([start, ISA_IN, end])
  }

  // ---------------------------------------------------------------------------------------------
  // Offsets

  /**
   * Every offset that can be computed is positive, and each is at least the one before it. An offset
   * cache that uses 0 for "not yet computed" is therefore filled by the first successful call.
   */
  lemma OffsetsPositive(layout: Layout, b: Bytes)
    ensures InfixIndex(layout, b) == (if layout == ThingEdge then THING_LENGTH else TYPE_LENGTH)
    ensures InfixIndex(layout, b) > 0
    ensures EndIndex(layout, b).Ok? ==> EndIndex(layout, b).value > InfixIndex(layout, b)
    ensures SuffixIndex(layout, b).Ok? ==> SuffixIndex(layout, b).value >= EndIndex(layout, b).value
    ensures layout == ThingEdge && SuffixIndex(layout, b).Ok? ==>
              SuffixIndex(layout, b).value == EndIndex(layout, b).value + THING_LENGTH
  {
  }

  /** The start is always a copy of its fixed-length window: reading it never throws. */
  lemma StartIsWindow(layout: Layout, b: Bytes)
    ensures layout == ThingEdge ==> ExtractThing(b, 0) == Ok(Start(layout, b))
    ensures Start(layout, b) == Window(b, 0, InfixIndex(layout, b))
  {
  }

  /** A type edge reads its infix at `TYPE_LENGTH`, which is always its `infixIndex()`. */
  lemma TypeInfixAtInfixIndex(b: Bytes)
    ensures Infix(TypeEdge, b) == ExtractInfix(b, InfixIndex(TypeEdge, b), true)
  {
  }

  /** A type edge's end is its last `TYPE_LENGTH` bytes; shorter bytes have no end. */
  lemma TypeEndIsLastBytes(b: Bytes)
    ensures |b| >= TYPE_LENGTH ==> End(TypeEdge, b) == Ok(b[|b| - TYPE_LENGTH..])
    ensures |b| < TYPE_LENGTH ==> End(TypeEdge, b) == Err(IndexOutOfBounds)
  {
    if |b| >= TYPE_LENGTH {
      assert b[|b| - TYPE_LENGTH..|b|] == b[|b| - TYPE_LENGTH..];
    }
  }

  /** `encoding()` and `isOutwards()` are read off the same infix `infix()` returns. */
  lemma EncodingFollowsInfix(layout: Layout, b: Bytes)
    ensures EdgeEncodingOf(layout, b).Ok? <==> Infix(layout, b).Ok?
    ensures IsOutwards(layout, b).Ok? <==> Infix(layout, b).Ok?
    ensures Infix(layout, b).Ok? ==>
              InfixHead(InfixCode(EdgeEncodingOf(layout, b).value,
                                  if IsOutwards(layout, b).value then Out else In))
              == Infix(layout, b).value[0]
  {
  }

  /**
   * A type edge only ever reports a type-edge encoding, and thing and ISA edges only thing-edge
   * encodings; a type edge's infix is always one byte.
   */
  lemma EncodingFamilyFollowsLayout(layout: Layout, b: Bytes)
    ensures EdgeEncodingOf(layout, b).Ok? ==>
              (IsTypeEdge(EdgeEncodingOf(layout, b).value) <==> layout == TypeEdge)
    ensures layout == TypeEdge && Infix(layout, b).Ok? ==> |Infix(layout, b).value| == 1
  {
  }

  // ---------------------------------------------------------------------------------------------
  // Round trips

  /** A type edge built from two type IIDs gives them back as its start and its end. */
  lemma TypeRoundTrip(start: Bytes, infix: InfixCode, end: Bytes)
    requires |start| == TYPE_LENGTH && |end| == TYPE_LENGTH
    ensures Start(TypeEdge, TypeOf(start, infix, end)) == start
    ensures End(TypeEdge, TypeOf(start, infix, end)) == Ok(end)
    ensures InfixIndex(TypeEdge, TypeOf(start, infix, end)) == TYPE_LENGTH
  {
    var b := TypeOf(start, infix, end);
    JoinThree(start, [InfixHead(infix)], end);
    assert b[..TYPE_LENGTH] == start;
    assert b[|b| - TYPE_LENGTH..|b|] == b[|b| - TYPE_LENGTH..];
    assert b[|b| - TYPE_LENGTH..] == end;
  }

  /**
   * A type edge built with a one-byte type-edge infix also gives back its infix, its encoding and
   * direction, and offsets that end exactly at the end of the bytes.
   */
  lemma TypeInfixRoundTrip(start: Bytes, infix: InfixCode, end: Bytes)
    requires |start| == TYPE_LENGTH && |end| == TYPE_LENGTH && IsTypeEdge(infix.encoding)
    ensures Infix(TypeEdge, TypeOf(start, infix, end)) == Ok([InfixHead(infix)])
    ensures EdgeEncodingOf(TypeEdge, TypeOf(start, infix, end)) == Ok(infix.encoding)
    ensures IsOutwards(TypeEdge, TypeOf(start, infix, end)) == Ok(infix.direction == Out)
    ensures EndIndex(TypeEdge, TypeOf(start, infix, end)) == Ok(TYPE_LENGTH + 1)
    ensures SuffixIndex(TypeEdge, TypeOf(start, infix, end)) == Ok(|TypeOf(start, infix, end)|)
  {
    var b := TypeOf(start, infix, end);
    var head := [InfixHead(infix)];
    JoinThree(start, head, end);
    DecodeInfixHead(infix);
    assert b[TYPE_LENGTH] == InfixHead(infix);
    CopyOfRangeOfPart(start, head, end);
    TypeRoundTrip(start, infix, end);
  }

  /** A thing edge built from its four parts gives each back at offsets 0, infixIndex, endIndex and suffixIndex. */
  lemma ThingRoundTrip(start: Bytes, infix: Bytes, end: Bytes, suffix: Bytes)
    requires |start| == THING_LENGTH && |end| == THING_LENGTH
    requires ValidInfix(infix) && !IsTypeEdge(CodeOf(infix).encoding)
    ensures Start(ThingEdge, ThingWithSuffixOf(start, infix, end, suffix)) == start
    ensures InfixIndex(ThingEdge, ThingWithSuffixOf(start, infix, end, suffix)) == |start|
    ensures Infix(ThingEdge, ThingWithSuffixOf(start, infix, end, suffix)) == Ok(infix)
    ensures EndIndex(ThingEdge, ThingWithSuffixOf(start, infix, end, suffix)) == Ok(|start| + |infix|)
    ensures End(ThingEdge, ThingWithSuffixOf(start, infix, end, suffix)) == Ok(end)
    ensures SuffixIndex(ThingEdge, ThingWithSuffixOf(start, infix, end, suffix))
            == Ok(|start| + |infix| + |end|)
    ensures Suffix(ThingWithSuffixOf(start, infix, end, suffix)) == Ok(suffix)
    ensures EdgeEncodingOf(ThingEdge, ThingWithSuffixOf(start, infix, end, suffix)) == Ok(CodeOf(infix).encoding)
  {
    ThingPartsAt(ThingWithSuffixOf(start, infix, end, suffix), start, infix, end, suffix);
  }

  /** The slicing behind `ThingRoundTrip`, stated on the joined bytes themselves. */
  lemma ThingPartsAt(b: Bytes, start: Bytes, infix: Bytes, end: Bytes, suffix: Bytes)
    requires |start| == THING_LENGTH && |end| == THING_LENGTH
    requires ValidInfix(infix) && !IsTypeEdge(CodeOf(infix).encoding)
    requires b == start + infix + end + suffix
    ensures Start(ThingEdge, b) == start
    ensures Infix(ThingEdge, b) == Ok(infix)
    ensures End(ThingEdge, b) == Ok(end)
    ensures Suffix(b) == Ok(suffix)
  {
    assert Start(ThingEdge, b) == start by {
      CopyOfRangeOfPart([], start, infix + end + suffix);
      assert [] + start + (infix + end + suffix) == b;
    }
    assert Infix(ThingEdge, b) == Ok(infix) by {
      ThingInfixAt(b, start, infix, end + suffix);
    }
    assert EndIndex(ThingEdge, b) == Ok(|start + infix|);
    assert End(ThingEdge, b) == Ok(end) by {
      CopyOfRangeOfPart(start + infix, end, suffix);
    }
    assert SuffixIndex(ThingEdge, b) == Ok(|start + infix + end|);
    assert Suffix(b) == Ok(suffix) by {
      CopyOfRangeOfTail(start + infix + end, suffix);
    }
  }

  /** A thing edge's infix is the valid thing infix written right after its start. */
  lemma ThingInfixAt(b: Bytes, start: Bytes, infix: Bytes, rest: Bytes)
    requires |start| == THING_LENGTH
    requires ValidInfix(infix) && !IsTypeEdge(CodeOf(infix).encoding)
    requires b == start + infix + rest
    ensures Infix(ThingEdge, b) == Ok(infix)
  {
    assert b[|start|] == infix[0];
    CopyOfRangeOfPart(start, infix, rest);
  }

  /** Without a suffix, `suffix()` is the empty slice at the end of the bytes. */
  lemma ThingWithoutSuffix(start: Bytes, infix: Bytes, end: Bytes)
    requires |start| == THING_LENGTH && |end| == THING_LENGTH
    requires ValidInfix(infix) && !IsTypeEdge(CodeOf(infix).encoding)
    ensures SuffixIndex(ThingEdge, ThingOf(start, infix, end)) == Ok(|ThingOf(start, infix, end)|)
    ensures Suffix(ThingOf(start, infix, end)) == Ok([])
    ensures End(ThingEdge, ThingOf(start, infix, end)) == Ok(end)
  {
    JoinThree(start, infix, end);
    JoinFour(start, infix, end, []);
    assert start + infix + end + [] == start + infix + end;
    ThingRoundTrip(start, infix, end, []);
  }

  /** An inward ISA edge gives back its type start and thing end, and always reports an inward ISA infix. */
  lemma InwardsIsaRoundTrip(start: Bytes, end: Bytes)
    requires |start| == TYPE_LENGTH
    ensures Start(InwardsIsa, InwardsIsaOf(start, end)) == start
    ensures End(InwardsIsa, InwardsIsaOf(start, end)) == Ok(end)
    ensures EndIndex(InwardsIsa, InwardsIsaOf(start, end)) == Ok(TYPE_LENGTH + 1)
    ensures SuffixIndex(InwardsIsa, InwardsIsaOf(start, end)) == Ok(|InwardsIsaOf(start, end)|)
  {
    var b := InwardsIsaOf(start, end);
    JoinThree(start, ISA_IN, end);
    IsaInIsValid();
    assert b[..TYPE_LENGTH] == start;
    CopyOfRangeOfTail(start + ISA_IN, end);
  }

  /** Whatever its bytes, an inward ISA edge reports the ISA-in infix: encoding ISA, inward. */
  lemma InwardsIsaInfixIsFixed(b: Bytes)
    ensures Infix(InwardsIsa, b) == Ok(ISA_IN)
    ensures EdgeEncodingOf(InwardsIsa, b) == Ok(Isa)
    ensures IsOutwards(InwardsIsa, b) == Ok(false)
  {
  }

  /**
   * Slicing the end at `TYPE_LENGTH + 1` recovers it exactly when the infix between start and end
   * is one byte long, which is why the ISA-in infix must be a single byte.
   */
  lemma IsaEndSliceNeedsOneByteInfix(start: Bytes, infix: Bytes, end: Bytes)
    requires |start| == TYPE_LENGTH
    ensures CopyOfRange(start + infix + end, TYPE_LENGTH + 1, |start + infix + end|) == Ok(end)
            <==> |infix| == 1
  {
    var b := start + infix + end;
    if |infix| == 1 {
      CopyOfRangeOfTail(start + infix, end);
    } else {
      var r := CopyOfRange(b, TYPE_LENGTH + 1, |b|);
      assert r.Ok? ==> |r.value| == |b| - TYPE_LENGTH - 1 != |end|;
    }
  }
}
