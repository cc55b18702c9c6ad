/**
 * The type graph as the concept layer sees it (a label index over type vertices plus a set of
 * edges) and `ConceptManager.putEntityType`, which gets an entity type by label or creates it
 * under a parent type.
 */
module Concepts {
  import opened Common
  import opened Encoding

  /** `Schema.Vertex.Type`: the category of a type vertex; `Entity` is `ENTITY_TYPE`. */
  datatype Category = Thing | Entity | Relation | Role | Attribute

  datatype TypeVertex = TypeVertex(category: Category, name: string)

  /** A type edge between two vertices, named by their positions in creation order. */
  datatype TypeEdge = TypeEdge(encoding: EdgeEncoding, from: nat, to: nat)

  /** Vertices in creation order, the label index over them, and the edges between them. */
  datatype Graph = Graph(vertices: seq<TypeVertex>, labels: map<string, nat>, edges: set<TypeEdge>)

  /** `EntityType`: the concept wrapping an entity type vertex. */
  datatype EntityType = EntityType(vertex: nat)

  /** `Schema.Vertex.Type.Root.ENTITY.label()`. */
  const ROOT_ENTITY_LABEL: string := "entity"

  /** Labels index exactly the vertices, one vertex per label, and edges join existing vertices. */
  ghost predicate WellFormed(g: Graph) {
    && (forall l <- g.labels :: g.labels[l] < |g.vertices| && g.vertices[g.labels[l]].name == l)
    && (forall i :: 0 <= i < |g.vertices| ==> g.vertices[i].name in g.labels && g.labels[g.vertices[i].name] == i)
    && (forall e <- g.edges :: e.from < |g.vertices| && e.to < |g.vertices|)
  }

  /** `GraphManager.getVertexType(label)`, with `None` for `null`. */
  function Lookup(g: Graph, name: string): Option<nat> {
    if name in g.labels then Some(g.labels[name]) else None
  }

  /** `GraphManager.createVertexType(category, label)`: a new vertex, indexed under its label. */
  function WithVertex(g: Graph, category: Category, name: string): Graph {
    Graph(g.vertices + [TypeVertex(category, name)], g.labels[name := |g.vertices|], g.edges)
  }

  /** `GraphManager.putEdge(encoding, from, to)`. */
  function WithEdge(g: Graph, encoding: EdgeEncoding, from: nat, to: nat): Graph {
    g.(edges := g.edges + {TypeEdge(encoding, from, to)})
  }

  /**
   * `putEntityType(label, parent)` on a graph value: the existing vertex if the label is taken;
   * otherwise a new entity type vertex, then a SUB edge to whatever the parent label names by then.
   * A missing parent fails after the vertex was created, and adds no edge.
   */
  function PutEntityTypeSpec(g: Graph, name: string, parent: string): (Graph, Result<EntityType>) {
    match Lookup(g, name)
    case Some(v) => (g, Ok(EntityType(v)))
    case None =>
      var created := WithVertex(g, Entity, name);
      var v := |g.vertices|;
      match Lookup(created, parent)
      case None => (created, Err(MissingParent))
      case Some(p) => (WithEdge(created, Sub, v, p), Ok(EntityType(v)))
  }

  /** A label that is already taken is returned as it is, and nothing is created or added. */
  lemma PutExistingEntityType(g: Graph, name: string, parent: string)
    requires name in g.labels
    ensures PutEntityTypeSpec(g, name, parent) == (g, Ok(EntityType(g.labels[name])))
  {
  }

  /**
   * A free label gets exactly one new `Entity` vertex, indexed under that label, and, when the
   * parent label exists, exactly one new SUB edge from the new vertex to the parent; the graph
   * stays well formed.
   */
  lemma PutNewEntityType(g: Graph, name: string, parent: string)
    requires WellFormed(g) && name !in g.labels
    ensures var (g', r) := PutEntityTypeSpec(g, name, parent);
      && WellFormed(g')
      && g'.vertices == g.vertices + [TypeVertex(Entity, name)]
      && g'.labels == g.labels[name := |g.vertices|]
      && (parent in g'.labels ==>
            && g'.edges == g.edges + {TypeEdge(Sub, |g.vertices|, g'.labels[parent])}
            && TypeEdge(Sub, |g.vertices|, g'.labels[parent]) !in g.edges
            && r == Ok(EntityType(|g.vertices|)))
      && (parent !in g'.labels ==> g'.edges == g.edges && r == Err(MissingParent))
  {
  }

  /** When the parent label is the label being created, the new type becomes its own parent. */
  lemma PutEntityTypeUnderItself(g: Graph, name: string)
    requires name !in g.labels
    ensures PutEntityTypeSpec(g, name, name).0.edges == g.edges + {TypeEdge(Sub, |g.vertices|, |g.vertices|)}
  {
  }

  /**
   * After one call, a second call with the same label creates nothing, whatever parent it names,
   * and returns the vertex the first call created or found.
   */
  lemma PutEntityTypeIdempotent(g: Graph, name: string, parent: string, parent': string)
    requires WellFormed(g)
    ensures var (g1, r1) := PutEntityTypeSpec(g, name, parent);
      && name in g1.labels
      && PutEntityTypeSpec(g1, name, parent') == (g1, Ok(EntityType(g1.labels[name])))
      && (r1.Ok? ==> r1 == Ok(EntityType(g1.labels[name])))
  {
  }

  /** The graph manager's type graph, updated in place. */
  class TypeGraph {
    var vertices: seq<TypeVertex>
    var labels: map<string, nat>
    var edges: set<TypeEdge>

    function Value(): Graph
      reads this
    {
      Graph(vertices, labels, edges)
    }

    ghost predicate Valid()
      reads this
    {
      WellFormed(Value())
    }

    constructor Empty()
      ensures Valid() && Value() == Graph([], map[], {})
    {
      vertices, labels, edges := [], map[], {};
    }

    /** `getVertexType(label)`. */
    function GetVertexType(name: string): (r: Option<nat>)
      reads this
      requires Valid()
      ensures r.Some? <==> name in labels
      ensures r.Some? ==> r.value < |vertices| && vertices[r.value].name == name
    {
      Lookup(Value(), name)
    }

    /** `createVertexType(category, label)`: appends the vertex and indexes it under its label. */
    method CreateVertexType(category: Category, name: string) returns (v: nat)
      requires name !in labels
      modifies this
      ensures v == old(|vertices|)
      ensures Value() == WithVertex(old(Value()), category, name)
    {
      v := |vertices|;
      vertices := vertices + [TypeVertex(category, name)];
      labels := labels[name := v];
    }

    /** `putEdge(encoding, from, to)`. */
    method PutEdge(encoding: EdgeEncoding, from: nat, to: nat)
      modifies this
      ensures Value() == WithEdge(old(Value()), encoding, from, to)
    {
      edges := edges + {TypeEdge(encoding, from, to)};
    }
  }

  class ConceptManager {
    const graph: TypeGraph

    constructor (graph: TypeGraph)
      ensures this.graph == graph
    {
      this.graph := graph;
    }

    /** `putEntityType(label, parent)`: get the type by label, or create it as a subtype of `parent`. */
    method PutEntityTypeUnder(name: string, parent: string) returns (r: Result<EntityType>)
      requires graph.Valid()
      modifies graph
      ensures graph.Valid()
      ensures (graph.Value(), r) == PutEntityTypeSpec(old(graph.Value()), name, parent)
      ensures name in old(graph.labels) ==> r == Ok(EntityType(old(graph.labels)[name])) && unchanged(graph)
      ensures name !in old(graph.labels) ==>
                graph.vertices == old(graph.vertices) + [TypeVertex(Entity, name)]
                && |graph.edges - old(graph.edges)| <= 1
    {
      ghost var g := graph.Value();
      var found := graph.GetVertexType(name);
      if found.Some? {
        return Ok(EntityType(found.value));
      }
      PutNewEntityType(g, name, parent);
      var v := graph.CreateVertexType(Entity, name);
      var parentVertex := graph.GetVertexType(parent);
      if parentVertex.None? {
        return Err(MissingParent);
      }
      graph.PutEdge(Sub, v, parentVertex.value);
      r := Ok(EntityType(v));
    }

    /** `putEntityType(label)`: the same as putting it under the root entity type. */
    method PutEntityType(name: string) returns (r: Result<EntityType>)
      requires graph.Valid()
      modifies graph
      ensures graph.Valid()
      ensures (graph.Value(), r) == PutEntityTypeSpec(old(graph.Value()), name, ROOT_ENTITY_LABEL)
    {
      r := PutEntityTypeUnder(name, ROOT_ENTITY_LABEL);
    }
  }
}
