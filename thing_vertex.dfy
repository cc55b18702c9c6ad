/**
 * Thing vertices and their two lifecycle variants. A buffered vertex was created in the current
 * transaction and may be marked inferred; a persisted vertex was read from storage and never is.
 * Committing a vertex writes to storage and commits its edges; the model returns those effects,
 * in order, as a list instead of performing them.
 */
module ThingVertices {
  import opened Common
  import opened ByteArrays
  import opened Encoding

  /** `Schema.Status`: which variant a vertex object is. */
  datatype Status = Buffered | Persisted

  /** A thing edge, identified by its encoding and the IIDs of its two endpoints. */
  datatype ThingEdge = ThingEdge(encoding: EdgeEncoding, from: Bytes, to: Bytes)

  /** The edges a vertex holds in one direction, in the order `forEach` visits them. */
  datatype Adjacency = Adjacency(direction: Direction, edges: seq<ThingEdge>)

  /** One side effect of a commit: a key written to storage, or an edge's own `commit`. */
  datatype Effect =
    | StoragePut(key: Bytes)
    | EdgeCommit(edge: ThingEdge, hasAttributeSyncLock: bool)

  /** The commits of `edges`, one per edge, in order, each passed the same lock flag. */
  function EdgeCommits(edges: seq<ThingEdge>, hasAttributeSyncLock: bool): (r: seq<Effect>)
    ensures |r| == |edges|
    ensures forall k :: 0 <= k < |r| ==> r[k] == EdgeCommit(edges[k], hasAttributeSyncLock)
  {
    if edges == [] then []
    else EdgeCommits(edges[..|edges| - 1], hasAttributeSyncLock)
         + [EdgeCommit(edges[|edges| - 1], hasAttributeSyncLock)]
  }

  /** What a successful commit does: the vertex key first (buffered only), then out-edges, then in-edges. */
  function CommitPlan(status: Status, iid: Bytes, outs: seq<ThingEdge>, ins: seq<ThingEdge>,
                      hasAttributeSyncLock: bool): seq<Effect>
  {
    (if status == Buffered then [StoragePut(iid)] else [])
    + EdgeCommits(outs, hasAttributeSyncLock) + EdgeCommits(ins, hasAttributeSyncLock)
  }

  class ThingVertex {
    const iid: Bytes
    const status: Status
    var isInferred: bool
    var outs: Adjacency
    var ins: Adjacency

    /** Outs go out of this vertex, ins come into it, and a persisted vertex is never inferred. */
    ghost predicate Valid()
      reads this
    {
      && outs.direction == Out && ins.direction == In
      && (forall e <- outs.edges :: e.from == iid)
      && (forall e <- ins.edges :: e.to == iid)
      && (status == Status.Persisted ==> !isInferred)
    }

    /** `new Buffered(graph, iid, isInferred)`: empty adjacencies, the given flag. */
    constructor Buffered(iid: Bytes, isInferred: bool)
      ensures Valid()
      ensures this.iid == iid && status == Status.Buffered && this.isInferred == isInferred
      ensures outs == Adjacency(Out, []) && ins == Adjacency(In, [])
    {
      this.iid := iid;
      status := Status.Buffered;
      this.isInferred := isInferred;
      outs := Adjacency(Out, []);
      ins := Adjacency(In, []);
    }

    /** `new Persisted(graph, iid)`: empty adjacencies, never inferred. */
    constructor Persisted(iid: Bytes)
      ensures Valid()
      ensures this.iid == iid && status == Status.Persisted && !isInferred
      ensures outs == Adjacency(Out, []) && ins == Adjacency(In, [])
    {
      this.iid := iid;
      status := Status.Persisted;
      isInferred := false;
      outs := Adjacency(Out, []);
      ins := Adjacency(In, []);
    }

    /** Records an edge in the adjacency of the given direction (the adjacency's `put`). */
    method PutEdge(direction: Direction, edge: ThingEdge)
      requires Valid()
      requires if direction == Out then edge.from == iid else edge.to == iid
      modifies this`outs, this`ins
      ensures Valid()
      ensures direction == Out ==> outs.edges == old(outs.edges) + [edge] && ins == old(ins)
      ensures direction == In ==> ins.edges == old(ins.edges) + [edge] && outs == old(outs)
    {
      if direction == Out {
        outs := outs.(edges := outs.edges + [edge]);
      } else {
        ins := ins.(edges := ins.edges + [edge]);
      }
    }

    /** `isInferred(boolean)`: a buffered vertex takes the flag; a persisted one refuses and keeps its state. */
    method SetInferred(isInferred: bool) returns (r: Outcome)
      requires Valid()
      modifies this`isInferred
      ensures Valid()
      ensures status == Status.Buffered ==> r == Pass && this.isInferred == isInferred
      ensures status == Status.Persisted ==> r == Fail(IllegalOperation) && this.isInferred == old(this.isInferred)
    {
      if status == Status.Persisted {
        return Fail(IllegalOperation);
      }
      this.isInferred := isInferred;
      r := Pass;
    }

    /** `commitEdges`: commits every out-edge, then every in-edge, each with the same lock flag. */
    method CommitEdges(hasAttributeSyncLock: bool) returns (effects: seq<Effect>)
      requires Valid()
      ensures effects == EdgeCommits(outs.edges, hasAttributeSyncLock) + EdgeCommits(ins.edges, hasAttributeSyncLock)
    {
      effects := [];
      var i := 0;
      while i < |outs.edges|
        invariant 0 <= i <= |outs.edges|
        invariant effects == EdgeCommits(outs.edges[..i], hasAttributeSyncLock)
      {
        effects := effects + [EdgeCommit(outs.edges[i], hasAttributeSyncLock)];
        i := i + 1;
        assert outs.edges[..i][..i - 1] == outs.edges[..i - 1];
      }
      assert outs.edges[..i] == outs.edges;
      var j := 0;
      while j < |ins.edges|
        invariant 0 <= j <= |ins.edges|
        invariant effects == EdgeCommits(outs.edges, hasAttributeSyncLock) + EdgeCommits(ins.edges[..j], hasAttributeSyncLock)
      {
        effects := effects + [EdgeCommit(ins.edges[j], hasAttributeSyncLock)];
        j := j + 1;
        assert ins.edges[..j][..j - 1] == ins.edges[..j - 1];
      }
      assert ins.edges[..j] == ins.edges;
    }

    /**
     * `commit(hasAttributeSyncLock)`: an inferred buffered vertex is refused before anything happens;
     * otherwise a buffered vertex writes its key and commits its edges, a persisted one only its edges.
     */
    method Commit(hasAttributeSyncLock: bool) returns (r: Outcome, effects: seq<Effect>)
      requires Valid()
      ensures status == Status.Buffered && isInferred ==> r == Fail(IllegalOperation) && effects == []
      ensures !(status == Status.Buffered && isInferred) ==>
                r == Pass && effects == CommitPlan(status, iid, outs.edges, ins.edges, hasAttributeSyncLock)
    {
      if status == Status.Buffered {
        if isInferred {
          return Fail(IllegalOperation), [];
        }
        var edges := CommitEdges(hasAttributeSyncLock);
        effects := [StoragePut(iid)] + edges;
      } else {
        effects := CommitEdges(hasAttributeSyncLock);
      }
      r := Pass;
    }
  }

  /**
   * A buffered commit writes exactly one storage key, the vertex IID, before anything else; then
   * commits each out-edge in order, then each in-edge in order, all with the same lock flag.
   */
  lemma BufferedCommitOrder(iid: Bytes, outs: seq<ThingEdge>, ins: seq<ThingEdge>, lock: bool)
    ensures CommitPlan(Buffered, iid, outs, ins, lock)[0] == StoragePut(iid)
    ensures |CommitPlan(Buffered, iid, outs, ins, lock)| == 1 + |outs| + |ins|
    ensures forall k :: 0 <= k < |outs| ==>
              CommitPlan(Buffered, iid, outs, ins, lock)[1 + k] == EdgeCommit(outs[k], lock)
    ensures forall k :: 0 <= k < |ins| ==>
              CommitPlan(Buffered, iid, outs, ins, lock)[1 + |outs| + k] == EdgeCommit(ins[k], lock)
    ensures forall k :: 0 < k < |CommitPlan(Buffered, iid, outs, ins, lock)| ==>
              CommitPlan(Buffered, iid, outs, ins, lock)[k].EdgeCommit?
              && CommitPlan(Buffered, iid, outs, ins, lock)[k].hasAttributeSyncLock == lock
  {
  }

  /** A persisted commit never writes a storage key: it commits the out-edges, then the in-edges. */
  lemma PersistedCommitOnlyEdges(iid: Bytes, outs: seq<ThingEdge>, ins: seq<ThingEdge>, lock: bool)
    ensures |CommitPlan(Persisted, iid, outs, ins, lock)| == |outs| + |ins|
    ensures forall k :: 0 <= k < |CommitPlan(Persisted, iid, outs, ins, lock)| ==>
              CommitPlan(Persisted, iid, outs, ins, lock)[k].EdgeCommit?
    ensures forall k :: 0 <= k < |outs| ==>
              CommitPlan(Persisted, iid, outs, ins, lock)[k] == EdgeCommit(outs[k], lock)
    ensures forall k :: 0 <= k < |ins| ==>
              CommitPlan(Persisted, iid, outs, ins, lock)[|outs| + k] == EdgeCommit(ins[k], lock)
  {
  }

  /** The two variants commit the same edges; the buffered one only adds its key in front. */
  lemma CommitVariantsDifferByKey(iid: Bytes, outs: seq<ThingEdge>, ins: seq<ThingEdge>, lock: bool)
    ensures CommitPlan(Buffered, iid, outs, ins, lock)
            == [StoragePut(iid)] + CommitPlan(Persisted, iid, outs, ins, lock)
  {
  }
}
