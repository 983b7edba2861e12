/** The generic directed graph (`graph`): a set of vertices and a set of
    directed edges (from, to) between them, at most one edge per ordered
    pair.

    The C graph keeps both sets as ordered sets under the user's vertex
    comparator, and the edges under the lexicographic edge comparator
    `EdgeCompare`. The model keeps them as mathematical sets, which is the
    same thing when the vertex comparator is an equality test (as `strcmp`
    is for the allocator's user names). */
module Graph {
  import opened Wrappers
  import opened Comparators

  datatype GraphResult =
    | Success
    | OutOfMemory
    | NullArgument
    | VertexAlreadyExists
    | VertexDoesNotExist
    | EdgeAlreadyExists
    | EdgeDoesNotExist

  datatype Graph<V> = Graph(vertices: set<V>, edges: set<(V, V)>)

  /** Every edge joins two vertices of the graph. */
  ghost predicate Valid<V>(g: Graph<V>) {
    forall e :: e in g.edges ==> e.0 in g.vertices && e.1 in g.vertices
  }

  /** The edges that neither start nor end at `v`. */
  function EdgesAvoiding<V(==)>(edges: set<(V, V)>, v: V): set<(V, V)> {
    set e | e in edges && e.0 != v && e.1 != v
  }

  /** Edges are ordered by their source vertex, then by their target. */
  function EdgeCompare<V(==)>(cmp: (V, V) -> int, e1: (V, V), e2: (V, V)): (r: int)
    ensures cmp(e1.0, e2.0) != 0 ==> r == cmp(e1.0, e2.0)
    ensures cmp(e1.0, e2.0) == 0 ==> r == cmp(e1.1, e2.1)
  {
    var fromDifference := cmp(e1.0, e2.0);
    if fromDifference == 0 then cmp(e1.1, e2.1) else fromDifference
  }

  /* ---------------------------------------------------------------------- */
  /* The API                                                                */
  /* ---------------------------------------------------------------------- */

  /** An empty graph; NULL when a callback (copy, compare, free) is
      missing. */
  function Create<V(==)>(hasCopy: bool, hasCompare: bool, hasFree: bool): (r: Option<Graph<V>>)
    ensures r.Some? <==> hasCopy && hasCompare && hasFree
    ensures r.Some? ==> r.value.vertices == {} && r.value.edges == {} && Valid(r.value)
  {
    if !hasCopy || !hasCompare || !hasFree then None
    else Some(Graph({}, {}))
  }

  /** Whether the vertex is in the graph; false for NULL arguments. */
  function IsVertexExists<V(==)>(g: Option<Graph<V>>, v: Option<V>): (b: bool)
  {
    g.Some? && v.Some? && v.value in g.value.vertices
  }

  /** Whether the directed edge is in the graph; false for NULL
      arguments. */
  function IsDirectedEdgeExists<V(==)>(g: Option<Graph<V>>, from: Option<V>, to: Option<V>): (b: bool)
  {
    g.Some? && from.Some? && to.Some? && (from.value, to.value) in g.value.edges
  }

  function AddVertex<V(==)>(g: Option<Graph<V>>, v: Option<V>): (r: (GraphResult, Option<Graph<V>>))
    ensures r.0 in {Success, NullArgument, VertexAlreadyExists}
    ensures r.0 == NullArgument <==> g.None? || v.None?
    ensures r.0 == VertexAlreadyExists <==> IsVertexExists(g, v)
    ensures r.0 != Success ==> r.1 == g
    ensures r.0 == Success ==>
              && r.1.Some? && r.1.value.edges == g.value.edges
              && r.1.value.vertices == g.value.vertices + {v.value}
              && v.value !in g.value.vertices
  {
    if g.None? || v.None? then (NullArgument, g)
    else if IsVertexExists(g, v) then (VertexAlreadyExists, g)
    else (Success, Some(g.value.(vertices := g.value.vertices + {v.value})))
  }

  /** Removes a vertex together with every edge incident to it. */
  function RemoveVertex<V(==,!new)>(g: Option<Graph<V>>, v: Option<V>): (r: (GraphResult, Option<Graph<V>>))
    ensures r.0 in {Success, NullArgument, VertexDoesNotExist}
    ensures r.0 == NullArgument <==> g.None? || v.None?
    ensures r.0 == VertexDoesNotExist <==> g.Some? && v.Some? && !IsVertexExists(g, v)
    ensures r.0 != Success ==> r.1 == g
    ensures r.0 == Success ==>
              && r.1.Some?
              && r.1.value.vertices == g.value.vertices - {v.value}
              && (forall e :: e in r.1.value.edges <==> e in g.value.edges && e.0 != v.value && e.1 != v.value)
  {
    if g.None? || v.None? then (NullArgument, g)
    else if !IsVertexExists(g, v) then (VertexDoesNotExist, g)
    else (Success, Some(Graph(g.value.vertices - {v.value}, EdgesAvoiding(g.value.edges, v.value))))
  }

  /** Adds the edge from -> to; both ends must already be vertices. */
  function AddDirectedEdge<V(==)>(g: Option<Graph<V>>, from: Option<V>, to: Option<V>): (r: (GraphResult, Option<Graph<V>>))
    ensures r.0 in {Success, NullArgument, VertexDoesNotExist, EdgeAlreadyExists}
    ensures r.0 == NullArgument <==> g.None? || from.None? || to.None?
    ensures r.0 == VertexDoesNotExist <==>
              g.Some? && from.Some? && to.Some? && (!IsVertexExists(g, from) || !IsVertexExists(g, to))
    ensures r.0 == EdgeAlreadyExists ==> IsDirectedEdgeExists(g, from, to)
    ensures r.0 != Success ==> r.1 == g
    ensures r.0 == Success ==>
              && r.1.Some? && r.1.value.vertices == g.value.vertices
              && r.1.value.edges == g.value.edges + {(from.value, to.value)}
              && (from.value, to.value) !in g.value.edges
  {
    if g.None? || from.None? || to.None? then (NullArgument, g)
    else if !IsVertexExists(g, from) || !IsVertexExists(g, to) then (VertexDoesNotExist, g)
    else if IsDirectedEdgeExists(g, from, to) then (EdgeAlreadyExists, g)
    else (Success, Some(g.value.(edges := g.value.edges + {(from.value, to.value)})))
  }

  /** Removes the edge from -> to. */
  function RemoveDirectedEdge<V(==)>(g: Option<Graph<V>>, from: Option<V>, to: Option<V>): (r: (GraphResult, Option<Graph<V>>))
    ensures r.0 in {Success, NullArgument, EdgeDoesNotExist}
    ensures r.0 == NullArgument <==> g.None? || from.None? || to.None?
    ensures r.0 == EdgeDoesNotExist <==>
              g.Some? && from.Some? && to.Some? && !IsDirectedEdgeExists(g, from, to)
    ensures r.0 != Success ==> r.1 == g
    ensures r.0 == Success ==>
              && r.1.Some? && r.1.value.vertices == g.value.vertices
              && r.1.value.edges == g.value.edges - {(from.value, to.value)}
              && (from.value, to.value) in g.value.edges
  {
    if g.None? || from.None? || to.None? then (NullArgument, g)
    else if !IsDirectedEdgeExists(g, from, to) then (EdgeDoesNotExist, g)
    else (Success, Some(g.value.(edges := g.value.edges - {(from.value, to.value)})))
  }

  /** Removes every edge and every vertex. */
  function Clear<V(==)>(g: Option<Graph<V>>): (r: (GraphResult, Option<Graph<V>>))
    ensures r.0 == NullArgument <==> g.None?
    ensures r.0 == Success <==> g.Some?
    ensures g.None? ==> r.1 == g
    ensures g.Some? ==> r.1.Some? && r.1.value.vertices == {} && r.1.value.edges == {}
  {
    if g.None? then (NullArgument, g)
    else (Success, Some(Graph({}, {})))
  }

  /** The two queries follow the updates: a NULL graph or argument is never
      found; after a successful update exactly the added vertex or edge is
      new, exactly the removed one (and, for a vertex, its incident edges)
      is gone, and nothing else changes; after a clear nothing is found. */
  lemma QueriesFollowUpdates<V(!new)>(g: Option<Graph<V>>, v: V, w: V, from: V, to: V, a: V, b: V)
    ensures !IsVertexExists(None, Some(w)) && !IsVertexExists(g, None)
    ensures !IsDirectedEdgeExists(None, Some(a), Some(b)) && !IsDirectedEdgeExists(g, None, Some(b))
            && !IsDirectedEdgeExists(g, Some(a), None)
    ensures var r := AddVertex(g, Some(v));
            r.0 == Success ==> (IsVertexExists(r.1, Some(w)) <==> w == v || IsVertexExists(g, Some(w)))
    ensures var r := RemoveVertex(g, Some(v));
            r.0 == Success ==> (IsVertexExists(r.1, Some(w)) <==> w != v && IsVertexExists(g, Some(w)))
    ensures var r := RemoveVertex(g, Some(v));
            r.0 == Success ==>
              (IsDirectedEdgeExists(r.1, Some(a), Some(b)) <==>
                 a != v && b != v && IsDirectedEdgeExists(g, Some(a), Some(b)))
    ensures var r := AddDirectedEdge(g, Some(from), Some(to));
            (IsDirectedEdgeExists(r.1, Some(a), Some(b)) <==>
               || IsDirectedEdgeExists(g, Some(a), Some(b))
               || ((a, b) == (from, to) && IsVertexExists(g, Some(from)) && IsVertexExists(g, Some(to))))
    ensures var r := RemoveDirectedEdge(g, Some(from), Some(to));
            (IsDirectedEdgeExists(r.1, Some(a), Some(b)) <==>
               IsDirectedEdgeExists(g, Some(a), Some(b)) && (a, b) != (from, to))
    ensures var r := Clear(g);
            !IsVertexExists(r.1, Some(w)) && !IsDirectedEdgeExists(r.1, Some(a), Some(b))
  {
  }

  /* ---------------------------------------------------------------------- */
  /* The incident-edge loop                                                 */
  /* ---------------------------------------------------------------------- */

  /** The removal loop of `RemoveVertex`: while some edge still touches `v`,
      remove one such edge and start over. It ends with exactly the edges
      that avoid `v`. */
  method RemoveIncidentEdges<V(==)>(edges: set<(V, V)>, v: V) returns (rest: set<(V, V)>)
    ensures rest == EdgesAvoiding(edges, v)
  {
    rest := edges;
    while exists e :: e in rest && (e.0 == v || e.1 == v)
      invariant rest <= edges
      invariant EdgesAvoiding(edges, v) <= rest
      decreases |rest|
    {
      var e :| e in rest && (e.0 == v || e.1 == v);
      rest := rest - {e};
    }
  }

  /* ---------------------------------------------------------------------- */
  /* Properties                                                             */
  /* ---------------------------------------------------------------------- */

  /** Every operation that reports success keeps every edge between
      vertices of the graph. */
  lemma OperationsKeepValid<V(!new)>(g: Graph<V>, v: V, from: V, to: V)
    requires Valid(g)
    ensures Valid(AddVertex(Some(g), Some(v)).1.value)
    ensures Valid(RemoveVertex(Some(g), Some(v)).1.value)
    ensures Valid(AddDirectedEdge(Some(g), Some(from), Some(to)).1.value)
    ensures Valid(RemoveDirectedEdge(Some(g), Some(from), Some(to)).1.value)
    ensures Valid(Clear(Some(g)).1.value)
  {
  }

  /** In a valid graph an edge can only exist between existing vertices. */
  lemma EdgeEndsExist<V>(g: Graph<V>, from: V, to: V)
    requires Valid(g)
    ensures IsDirectedEdgeExists(Some(g), Some(from), Some(to))
            ==> IsVertexExists(Some(g), Some(from)) && IsVertexExists(Some(g), Some(to))
  {
  }

  /** Removing a vertex leaves no edge that mentions it. */
  lemma RemoveVertexDropsIncidentEdges<V(!new)>(g: Graph<V>, v: V, w: V)
    requires Valid(g)
    ensures var r := RemoveVertex(Some(g), Some(v)).1;
            !IsVertexExists(r, Some(v)) && !IsDirectedEdgeExists(r, Some(v), Some(w))
            && !IsDirectedEdgeExists(r, Some(w), Some(v))
  {
  }

  /** In a valid graph, adding a new vertex and removing it again restores
      the graph: a new vertex has no edges yet. */
  lemma AddThenRemoveVertex<V(!new)>(g: Graph<V>, v: V)
    requires Valid(g) && v !in g.vertices
    ensures var added := AddVertex(Some(g), Some(v));
            added.0 == Success && RemoveVertex(added.1, Some(v)) == (Success, Some(g))
  {
    assert EdgesAvoiding(g.edges, v) == g.edges;
    assert g.vertices + {v} - {v} == g.vertices;
  }

  /** Adding a new edge and removing it again restores the graph. */
  lemma AddThenRemoveEdge<V>(g: Graph<V>, from: V, to: V)
    requires from in g.vertices && to in g.vertices && (from, to) !in g.edges
    ensures var added := AddDirectedEdge(Some(g), Some(from), Some(to));
            added.0 == Success
            && IsDirectedEdgeExists(added.1, Some(from), Some(to))
            && RemoveDirectedEdge(added.1, Some(from), Some(to)) == (Success, Some(g))
  {
    assert g.edges + {(from, to)} - {(from, to)} == g.edges;
  }

  /** The lexicographic edge order obeys the comparator laws whenever the
      vertex order does. */
  lemma EdgeCompareIsComparator<V(!new)>(cmp: (V, V) -> int)
    requires IsComparator(cmp)
    ensures IsComparator((e1: (V, V), e2: (V, V)) => EdgeCompare(cmp, e1, e2))
  {
    var ec := (e1: (V, V), e2: (V, V)) => EdgeCompare(cmp, e1, e2);
    forall a: (V, V), b: (V, V) ensures ec(a, b) < 0 <==> ec(b, a) > 0 {
      ZeroSymmetric(cmp, a.0, b.0);
    }
    forall a: (V, V), b: (V, V), c: (V, V) | ec(a, b) < 0 && ec(b, c) < 0 ensures ec(a, c) < 0 {
      EdgeLessTransitive(cmp, a, b, c);
    }
    forall a: (V, V), b: (V, V), c: (V, V) | ec(a, b) == 0 && ec(b, c) == 0 ensures ec(a, c) == 0 {
      ZeroSymmetric(cmp, a.0, b.0);
      ZeroSymmetric(cmp, b.0, c.0);
    }
  }

  lemma EdgeLessTransitive<V(!new)>(cmp: (V, V) -> int, a: (V, V), b: (V, V), c: (V, V))
    requires IsComparator(cmp)
    requires EdgeCompare(cmp, a, b) < 0 && EdgeCompare(cmp, b, c) < 0
    ensures EdgeCompare(cmp, a, c) < 0
  {
    ZeroSymmetric(cmp, a.0, b.0);
    ZeroSymmetric(cmp, b.0, c.0);
    ZeroSymmetric(cmp, a.0, c.0);
    BelowNotEqual(cmp, a.0, b.0, c.0);
    AboveNotEqual(cmp, b.0, c.0, a.0);
  }
}
