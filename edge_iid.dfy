/**
 * An edge IID object: immutable bytes plus lazily filled caches for its parts and its boundary
 * offsets. The part caches use `None` for "not yet computed"; the offset caches use 0, as the
 * Java fields do, which is sound because every offset is positive (`EdgeLayout.OffsetsPositive`).
 */
module EdgeIids {
  import opened Common
  import opened ByteArrays
  import opened Encoding
  import EdgeLayout

  class EdgeIid {
    const layout: EdgeLayout.Layout
    const bytes: Bytes

    var startCache: Option<Bytes>
    var infixCache: Option<Bytes>
    var endCache: Option<Bytes>
    var suffixCache: Option<Bytes>
    var infixIndexCache: int
    var endIndexCache: int
    var suffixIndexCache: int

    /** Every filled cache holds what the layout functions compute from the bytes. */
    ghost predicate Valid()
      reads this
    {
      && (startCache.Some? ==> startCache.value == EdgeLayout.Start(layout, bytes))
      && (infixCache.Some? ==> layout != EdgeLayout.InwardsIsa && EdgeLayout.Infix(layout, bytes) == Ok(infixCache.value))
      && (endCache.Some? ==> EdgeLayout.End(layout, bytes) == Ok(endCache.value))
      && (suffixCache.Some? ==> layout == EdgeLayout.ThingEdge && EdgeLayout.Suffix(bytes) == Ok(suffixCache.value))
      && (infixIndexCache != 0 ==> infixIndexCache == EdgeLayout.InfixIndex(layout, bytes))
      && (endIndexCache != 0 ==> EdgeLayout.EndIndex(layout, bytes) == Ok(endIndexCache))
      && (suffixIndexCache != 0 ==> EdgeLayout.SuffixIndex(layout, bytes) == Ok(suffixIndexCache))
    }

    /** Once filled, a cache is never reassigned. */
    twostate predicate CachesKept()
      reads this
    {
      && (old(startCache).Some? ==> startCache == old(startCache))
      && (old(infixCache).Some? ==> infixCache == old(infixCache))
      && (old(endCache).Some? ==> endCache == old(endCache))
      && (old(suffixCache).Some? ==> suffixCache == old(suffixCache))
      && (old(infixIndexCache) != 0 ==> infixIndexCache == old(infixIndexCache))
      && (old(endIndexCache) != 0 ==> endIndexCache == old(endIndexCache))
      && (old(suffixIndexCache) != 0 ==> suffixIndexCache == old(suffixIndexCache))
    }

    /** `Type.of(bytes)`, `Thing.of(bytes)`, `InwardsISA.of(bytes)`: wrap the bytes, compute nothing yet. */
    constructor Of(layout: EdgeLayout.Layout, bytes: Bytes)
      ensures Valid()
      ensures this.layout == layout && this.bytes == bytes
      ensures startCache == infixCache == endCache == suffixCache == None
      ensures infixIndexCache == endIndexCache == suffixIndexCache == 0
    {
      this.layout := layout;
      this.bytes := bytes;
      startCache, infixCache, endCache, suffixCache := None, None, None, None;
      infixIndexCache, endIndexCache, suffixIndexCache := 0, 0, 0;
    }

    /** `start()`: slices the start on the first call and returns the cached copy afterwards. */
    method Start() returns (r: Bytes)
      requires Valid()
      modifies this`startCache
      ensures Valid() && CachesKept()
      ensures r == EdgeLayout.Start(layout, bytes) && startCache == Some(r)
    {
      if startCache.None? {
        startCache := Some(EdgeLayout.Start(layout, bytes));
      }
      r := startCache.value;
    }

    /** `infixIndex()`: the length of the start, cached in a field where 0 means "not yet computed". */
    method InfixIndex() returns (r: int)
      requires Valid()
      modifies this`startCache, this`infixIndexCache
      ensures Valid() && CachesKept()
      ensures r == EdgeLayout.InfixIndex(layout, bytes) && r > 0 && infixIndexCache == r
    {
      EdgeLayout.OffsetsPositive(layout, bytes);
      if infixIndexCache == 0 {
        var start := Start();
        infixIndexCache := |start|;
      }
      r := infixIndexCache;
    }

    /** `infix()`: cached for type and thing edges; an ISA edge returns the ISA-in infix every time. */
    method Infix() returns (r: Result<Bytes>)
      requires Valid()
      modifies this`startCache, this`infixIndexCache, this`infixCache
      ensures Valid() && CachesKept()
      ensures r == EdgeLayout.Infix(layout, bytes)
      ensures r.Ok? && layout != EdgeLayout.InwardsIsa ==> infixCache == Some(r.value)
      ensures layout == EdgeLayout.InwardsIsa ==> unchanged(this)
    {
      if layout == EdgeLayout.InwardsIsa {
        IsaInIsValid();
        return Ok(ISA_IN);
      }
      if infixCache.None? {
        var at := TYPE_LENGTH;
        if layout == EdgeLayout.ThingEdge {
          at := InfixIndex();
        }
        var infix := EdgeLayout.ExtractInfix(bytes, at, layout == EdgeLayout.TypeEdge);
        if infix.Err? {
          return infix;
        }
        infixCache := Some(infix.value);
      }
      r := Ok(infixCache.value);
    }

    /** `endIndex()`: `infixIndex()` plus the length of `infix()`, cached with 0 as "not yet computed". */
    method EndIndex() returns (r: Result<int>)
      requires Valid()
      modifies this`startCache, this`infixIndexCache, this`infixCache, this`endIndexCache
      ensures Valid() && CachesKept()
      ensures r == EdgeLayout.EndIndex(layout, bytes)
      ensures r.Ok? ==> r.value > 0 && endIndexCache == r.value
    {
      EdgeLayout.OffsetsPositive(layout, bytes);
      if endIndexCache == 0 {
        var at := InfixIndex();
        var infix := Infix();
        if infix.Err? {
          return Err(infix.error);
        }
        endIndexCache := at + |infix.value|;
      }
      r := Ok(endIndexCache);
    }

    /** `end()`: the last `TYPE_LENGTH` bytes, the thing IID at `endIndex()`, or the bytes after the ISA infix. */
    method End() returns (r: Result<Bytes>)
      requires Valid()
      modifies this`startCache, this`infixIndexCache, this`infixCache, this`endIndexCache, this`endCache
      ensures Valid() && CachesKept()
      ensures r == EdgeLayout.End(layout, bytes)
      ensures r.Ok? ==> endCache == Some(r.value)
    {
      if endCache.Some? {
        return Ok(endCache.value);
      }
      var end: Result<Bytes>;
      if layout == EdgeLayout.TypeEdge {
        end := CopyOfRange(bytes, |bytes| - TYPE_LENGTH, |bytes|);
      } else if layout == EdgeLayout.ThingEdge {
        var at := EndIndex();
        if at.Err? {
          return Err(at.error);
        }
        end := EdgeLayout.ExtractThing(bytes, at.value);
      } else {
        end := CopyOfRange(bytes, TYPE_LENGTH + 1, |bytes|);
      }
      if end.Ok? {
        endCache := Some(end.value);
      }
      r := end;
    }

    /** `suffixIndex()`: `endIndex()` plus the length of `end()`, cached with 0 as "not yet computed". */
    method SuffixIndex() returns (r: Result<int>)
      requires Valid()
      modifies this`startCache, this`infixIndexCache, this`infixCache, this`endIndexCache, this`endCache,
               this`suffixIndexCache
      ensures Valid() && CachesKept()
      ensures r == EdgeLayout.SuffixIndex(layout, bytes)
      ensures r.Ok? ==> r.value > 0 && suffixIndexCache == r.value
    {
      EdgeLayout.OffsetsPositive(layout, bytes);
      if suffixIndexCache == 0 {
        var at := EndIndex();
        if at.Err? {
          return Err(at.error);
        }
        var end := End();
        if end.Err? {
          return Err(end.error);
        }
        suffixIndexCache := at.value + |end.value|;
      }
      r := Ok(suffixIndexCache);
    }

    /** `Thing.suffix()`: the bytes from `suffixIndex()` to the end, cached. */
    method Suffix() returns (r: Result<Bytes>)
      requires Valid() && layout == EdgeLayout.ThingEdge
      modifies this`startCache, this`infixIndexCache, this`infixCache, this`endIndexCache, this`endCache,
               this`suffixIndexCache, this`suffixCache
      ensures Valid() && CachesKept()
      ensures r == EdgeLayout.Suffix(bytes)
      ensures r.Ok? ==> suffixCache == Some(r.value)
    {
      if suffixCache.Some? {
        return Ok(suffixCache.value);
      }
      var at := SuffixIndex();
      if at.Err? {
        return Err(at.error);
      }
      var suffix := CopyOfRange(bytes, at.value, |bytes|);
      if suffix.Ok? {
        suffixCache := Some(suffix.value);
      }
      r := suffix;
    }

    /** `encoding()`: the encoding named by `infix()`. */
    method Encoding() returns (r: Result<EdgeEncoding>)
      requires Valid()
      modifies this`startCache, this`infixIndexCache, this`infixCache
      ensures Valid() && CachesKept()
      ensures r == EdgeLayout.EdgeEncodingOf(layout, bytes)
    {
      var infix := Infix();
      if infix.Err? {
        return Err(infix.error);
      }
      r := Ok(CodeOf(infix.value).encoding);
    }

    /** `isOutwards()`: whether `infix()` is an outward infix. */
    method IsOutwards() returns (r: Result<bool>)
      requires Valid()
      modifies this`startCache, this`infixIndexCache, this`infixCache
      ensures Valid() && CachesKept()
      ensures r == EdgeLayout.IsOutwards(layout, bytes)
    {
      var infix := Infix();
      if infix.Err? {
        return Err(infix.error);
      }
      r := Ok(CodeOf(infix.value).direction == Out);
    }
  }
}
