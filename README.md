# Edge identifiers, thing-vertex lifecycle and entity-type creation

A Dafny model of three sequential pieces of a graph database's storage layer:

- **Edge IIDs** (`graph/iid/EdgeIID.java`). An edge key is the byte sequence
  `start ‖ infix ‖ end [‖ suffix]`, built by concatenation with no delimiters and taken apart by
  slicing at offsets that depend only on lengths. There are three layouts: a *type* edge (both
  ends are 3-byte type IIDs; the end is the last 3 bytes), a *thing* edge (both ends are thing
  IIDs, optional suffix) and an *inward ISA* edge (type start, fixed ISA-in infix, thing end read
  from byte 4). `EdgeLayout` gives each accessor as a pure function of the bytes, with Java's
  `copyOfRange` semantics: negative length first, then a start outside the array, and zero padding
  past the end. `EdgeIids.EdgeIid` is the object itself. Its part caches start out `None` and its
  offset caches use 0 for "not yet computed", as in the Java fields. `Valid()` ties every filled
  cache to the pure function, and `CachesKept()` says that a filled cache is never reassigned.
- **Thing vertices** (`graph/vertex/impl/ThingVertexImpl.java`). `ThingVertices.ThingVertex` is a
  class with two variants, buffered and persisted, fixed at construction. `isInferred` is a
  mutable field. Storage writes and edge commits are not performed: `Commit` returns them, in
  order, as a list of `Effect`s. The pure `CommitPlan` states that list, and lemmas prove the
  ordering facts about it.
- **Get-or-create entity type** (`concept/ConceptManager.java`). The graph manager's type graph is
  a class (`TypeGraph`): vertices in creation order, a label index and an edge set.
  `ConceptManager.PutEntityTypeUnder` updates it in place. Its effect equals the pure
  `PutEntityTypeSpec`, about which the creation, no-op and idempotence lemmas are proved.

Modules: `Common` (errors and `Result`/`Outcome`), `ByteArrays` (`copyOfRange`, `join`),
`Encoding` (identifier lengths and infix byte codes), `EdgeLayout`, `EdgeIids`, `ThingVertices`,
`Concepts`.

Three facts about the code that the model keeps:
- Every computable offset is positive (`EdgeLayout.OffsetsPositive`). So the 0 sentinel of the
  offset caches is sound: a cache is filled by the first successful call.
- A vertex commits every out-edge before any in-edge.
- A persisted vertex commits whatever edges its adjacencies yield.

## Model

| member | source | states |
|---|---|---|
| `EdgeLayout.ExtractInfix` | graph/iid/EdgeIID.java:133-137 | an extracted infix is exactly the bytes from the offset for its encoding's length, zero-padded past the end, and is a whole valid infix of the requested family (type infixes are one byte); extraction succeeds exactly when the offset is inside the bytes and its head byte names an encoding of the requested family; an offset outside the bytes fails with an index error, and a head byte that names no encoding of that family fails with an unknown-infix error |
| `EdgeLayout.Infix` | graph/iid/EdgeIID.java:133-137 | the infix each layout reports is a valid infix whose encoding is a type-edge encoding exactly when the layout is a type edge; a type edge reads it at `VertexIID.Type.LENGTH` (lines 95-99), an inward ISA edge always reports the ISA-in infix (lines 186-189) |
| `EdgeLayout.TypeOf` | graph/iid/EdgeIID.java:91-93 | `Type.of(s, i, e)` is the bytes of `s`, then the infix's one head byte, then the bytes of `e` |
| `EdgeLayout.ThingOf` | graph/iid/EdgeIID.java:125-127 | `Thing.of(s, i, e)` is the bytes of `s`, `i` and `e` joined in that order |
| `EdgeLayout.ThingWithSuffixOf` | graph/iid/EdgeIID.java:129-131 | `Thing.of(s, i, e, x)` is the bytes of `s`, `i`, `e` and `x` joined in that order |
| `EdgeLayout.InwardsIsaOf` | graph/iid/EdgeIID.java:182-184 | `InwardsISA.of(s, e)` is the bytes of `s`, the ISA-in infix byte, then the bytes of `e` |
| `EdgeLayout.OffsetsPositive` | graph/iid/EdgeIID.java:48-61 | `infixIndex` is the start's fixed length and is > 0; `endIndex` > `infixIndex`; `suffixIndex` >= `endIndex`, exceeding it by a thing IID's length for thing edges; so a 0-sentinel cache is filled on the first successful call |
| `EdgeLayout.StartIsWindow` | graph/iid/EdgeIID.java:101-105 | reading the start never fails: it is the first `infixIndex` bytes, zero-padded, and for thing edges it equals the thing IID extracted at 0 |
| `EdgeLayout.TypeInfixAtInfixIndex` | graph/iid/EdgeIID.java:95-99 | the type-edge infix, read at `VertexIID.Type.LENGTH`, is the infix read at `infixIndex()` |
| `EdgeLayout.TypeEndIsLastBytes` | graph/iid/EdgeIID.java:107-112 | a type edge's end is its last `TYPE_LENGTH` bytes, and bytes shorter than that fail with an index error |
| `EdgeLayout.TypeRoundTrip` | graph/iid/EdgeIID.java:91-112 | `Type.of(s, i, e)` with 3-byte `s` and `e` decodes to start `s`, end `e` and infix index 3, whatever the infix |
| `EdgeLayout.TypeInfixRoundTrip` | graph/iid/EdgeIID.java:91-99 | with a one-byte type-edge infix, `Type.of` also decodes to that infix, its encoding and direction, end index 4, and a suffix index equal to the byte length |
| `EdgeLayout.ThingRoundTrip` | graph/iid/EdgeIID.java:129-155 | for a thing-edge infix `i`, `Thing.of(s, i, e, x)` decodes to `s`, `i`, `e`, `x` at offsets 0, `|s|`, `|s|+|i|`, `|s|+|i|+|e|`, with `i`'s encoding |
| `EdgeLayout.ThingWithoutSuffix` | graph/iid/EdgeIID.java:125-142 | for a thing-edge infix, `Thing.of(s, i, e)` has its suffix index at the end of the bytes and an empty suffix |
| `EdgeLayout.InwardsIsaRoundTrip` | graph/iid/EdgeIID.java:182-203 | `InwardsISA.of(s, e)` with 3-byte `s` decodes to start `s` and end `e`, with end index 4 and suffix index at the end of the bytes |
| `EdgeLayout.InwardsIsaInfixIsFixed` | graph/iid/EdgeIID.java:186-189 | for any bytes, an inward ISA edge's infix is the ISA-in infix, its encoding is ISA and it is not outwards |
| `EdgeLayout.IsaEndSliceNeedsOneByteInfix` | graph/iid/EdgeIID.java:198-203 | slicing from `TYPE_LENGTH + 1` gives back the end exactly when the infix between start and end is one byte long |
| `EdgeLayout.EncodingFamilyFollowsLayout` | graph/iid/EdgeIID.java:81-99 | a type edge reports only type-edge encodings and has a one-byte infix; thing and ISA edges report only thing-edge encodings |
| `EdgeLayout.EncodingFollowsInfix` | graph/iid/EdgeIID.java:63-69 | `encoding()` and `isOutwards()` succeed exactly when `infix()` does, and together re-encode the infix's head byte |
| `EdgeIids.EdgeIid.Of` | graph/iid/EdgeIID.java:87-89 | wrapping bytes stores them and computes nothing yet: all caches empty or 0 |
| `EdgeIids.EdgeIid.Start` | graph/iid/EdgeIID.java:101-105 | returns the start the layout defines, leaves it cached, and never reassigns a filled cache |
| `EdgeIids.EdgeIid.InfixIndex` | graph/iid/EdgeIID.java:48-51 | returns the start's length, which is > 0, so the 0-sentinel cache holds it after the call |
| `EdgeIids.EdgeIid.Infix` | graph/iid/EdgeIID.java:133-137 | returns the layout's infix (or its error) and caches it for type and thing edges; an ISA edge returns the ISA-in infix and changes nothing |
| `EdgeIids.EdgeIid.EndIndex` | graph/iid/EdgeIID.java:53-56 | returns `infixIndex + |infix|` (or the infix's error), positive and cached |
| `EdgeIids.EdgeIid.End` | graph/iid/EdgeIID.java:151-155 | returns the layout's end (or its error) and caches a success |
| `EdgeIids.EdgeIid.SuffixIndex` | graph/iid/EdgeIID.java:58-61 | returns `endIndex + |end|` (or the first error), positive and cached |
| `EdgeIids.EdgeIid.Suffix` | graph/iid/EdgeIID.java:139-142 | returns the bytes from `suffixIndex` to the end (or the error) and caches a success |
| `EdgeIids.EdgeIid.Encoding` | graph/iid/EdgeIID.java:63-65 | returns the encoding of `infix()`, keeping every filled cache |
| `EdgeIids.EdgeIid.IsOutwards` | graph/iid/EdgeIID.java:67-69 | returns whether `infix()` is outward, keeping every filled cache |
| `ThingVertices.ThingVertex.Buffered` | graph/vertex/impl/ThingVertexImpl.java:42-48 | stores the IID and the given `isInferred`, status BUFFERED for the object's life, outs with direction OUT and ins with direction IN, both empty |
| `ThingVertices.ThingVertex.Persisted` | graph/vertex/impl/ThingVertexImpl.java:144-146 | stores the IID, status PERSISTED for the object's life, `isInferred` false, empty OUT and IN adjacencies |
| `ThingVertices.ThingVertex.SetInferred` | graph/vertex/impl/ThingVertexImpl.java:109-112 | a buffered vertex takes the flag and changes nothing else; a persisted vertex fails with ILLEGAL_OPERATION and keeps its flag (lines 153-156) |
| `ThingVertices.EdgeCommits` | graph/vertex/impl/ThingVertexImpl.java:132-133 | one commit per edge, in adjacency order, each passed the same lock flag |
| `ThingVertices.ThingVertex.CommitEdges` | graph/vertex/impl/ThingVertexImpl.java:131-134 | commits every out-edge, then every in-edge, with the given lock flag |
| `ThingVertices.ThingVertex.Commit` | graph/vertex/impl/ThingVertexImpl.java:119-125 | an inferred buffered vertex fails with ILLEGAL_OPERATION and has no effect; otherwise the effects are `CommitPlan` for its variant |
| `ThingVertices.BufferedCommitOrder` | graph/vertex/impl/ThingVertexImpl.java:120-134 | a buffered commit writes exactly one storage key, the vertex IID, first; then each out-edge in order, then each in-edge, all with the same lock flag |
| `ThingVertices.PersistedCommitOnlyEdges` | graph/vertex/impl/ThingVertexImpl.java:163-171 | a persisted commit writes no storage key: it commits each out-edge, then each in-edge |
| `ThingVertices.CommitVariantsDifferByKey` | graph/vertex/impl/ThingVertexImpl.java:119-171 | a buffered commit is a persisted commit with the vertex-key write in front |
| `Concepts.PutExistingEntityType` | concept/ConceptManager.java:39-47 | when the label exists, the vertex found is returned wrapped and the graph is unchanged |
| `Concepts.PutNewEntityType` | concept/ConceptManager.java:41-44 | when the label is free: exactly one new ENTITY_TYPE vertex with that label is created and indexed; exactly one new SUB edge goes from it to the vertex the parent label names; a missing parent adds no edge and fails; the graph stays well formed |
| `Concepts.PutEntityTypeUnderItself` | concept/ConceptManager.java:42-44 | the parent is looked up after creation, so naming the new label as its own parent adds a SUB self-loop |
| `Concepts.PutEntityTypeIdempotent` | concept/ConceptManager.java:38-48 | after one call the label exists, and a second call with any parent returns the same vertex and changes nothing |
| `Concepts.ConceptManager.constructor` | concept/ConceptManager.java:30-32 | the concept manager keeps the graph manager it is given and works on that type graph |
| `Concepts.ConceptManager.PutEntityTypeUnder` | concept/ConceptManager.java:38-48 | the type graph and the result are those of `PutEntityTypeSpec`: an existing label leaves the graph unchanged, a free one appends exactly one ENTITY_TYPE vertex and at most one edge |
| `Concepts.ConceptManager.PutEntityType` | concept/ConceptManager.java:34-36 | behaves as putting the label under the root entity label |

## Left out

- `toString` / `readableString` of edge IIDs: diagnostic rendering only.
- `InfixIID`, `VertexIID`, `SuffixIID` and `Encoding` are not part of this model. Their byte layouts
  are stood in for as follows. Type IIDs are 3 bytes. Thing IIDs are a fixed 11 bytes: a type IID
  and an 8-byte key. Variable-length attribute keys are not covered. An infix is one head byte;
  a role-player infix also carries the 3-byte role type IID. The key values of the edge encodings
  are illustrative: an outward code is a positive key and an inward code is its two's-complement
  negation.
- Java `int` overflow of offsets is not modelled: byte arrays are far shorter than 2^31.
- `ThingVertices.ThingVertex.Commit`: does not call `commitIndex()` or model `delete()`, because
  both are empty stubs in the code.
- `typeVertex()`, `graph()`, `outs()` and `ins()`: a lookup in an unseen type graph, and plain getters.
- Adjacency internals are not modelled. An adjacency is a list in `forEach` order, filled through
  `ThingVertex.PutEdge`, which stands for the adjacency's `put`. The store-backed scan of a
  persisted adjacency is not modelled.
- Storage and `ThingEdge.commit` are not performed. A commit returns its ordered effects instead.
  Storage I/O failures and the attribute-uniqueness lock are not modelled: the lock is only a
  boolean passed through.
- `GraphManager` is not part of this model; `TypeGraph` stands in for its type graph. Its code
  does not show what `putEdge` does with the `null` it receives for a missing parent.
  `PutEntityTypeSpec` models that case as a `MissingParent` failure: the vertex is already
  created, and no edge is added.
- `Concepts.ConceptManager.PutEntityTypeUnder`: on creation its own contract bounds the new edges
  by one. The exact edge, and the failure on a missing parent, are stated through
  `PutEntityTypeSpec` and `Concepts.PutNewEntityType`.
