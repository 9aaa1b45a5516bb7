/** The part of QuickGraph's UndirectedGraph<string, Edge<string>> the engine uses, as a value:
    the vertices in enumeration order, the edges in insertion order (each vertex's adjacent
    edges are enumerated in that order too), and the allowParallelEdges flag given at construction. */
module Graphs {
  import opened Collections

  datatype Edge = Edge(source: string, target: string)

  datatype Graph = Graph(vertices: seq<string>, edges: seq<Edge>, allowParallelEdges: bool)

  /** new UndirectedGraph<string, Edge<string>>(allowParallelEdges) */
  function EmptyGraph(allowParallelEdges: bool): Graph
  {
    Graph([], [], allowParallelEdges)
  }

  /** e is an undirected edge between u and v. */
  predicate Joins(e: Edge, u: string, v: string)
  {
    (e.source == u && e.target == v) || (e.source == v && e.target == u)
  }

  predicate IncidentTo(e: Edge, v: string)
  {
    e.source == v || e.target == v
  }

  /** A simple undirected graph as the library maintains it: distinct vertices, every edge
      between two distinct vertices of the graph, and no two edges between the same pair. */
  ghost predicate WellFormed(g: Graph)
  {
    && Distinct(g.vertices)
    && (forall e :: e in g.edges ==> e.source in g.vertices && e.target in g.vertices && e.source != e.target)
    && NoParallel(g.edges)
  }

  /** No two edges of es join the same pair of vertices. */
  ghost predicate NoParallel(es: seq<Edge>)
  {
    forall i, j :: 0 <= i < j < |es| ==> !Joins(es[j], es[i].source, es[i].target)
  }

  ghost predicate Adjacent(g: Graph, u: string, v: string)
  {
    exists e :: e in g.edges && Joins(e, u, v)
  }

  /** Every edge of a is an edge of b. */
  ghost predicate EdgesSubset(a: Graph, b: Graph)
  {
    forall e :: e in a.edges ==> e in b.edges
  }

  /** AdjacentEdges(v): the edges incident to v, in insertion order (none for an absent vertex). */
  function AdjacentEdges(g: Graph, v: string): (r: seq<Edge>)
    ensures forall e :: e in r <==> e in g.edges && IncidentTo(e, v)
    decreases |g.edges|
  {
    if g.edges == [] then []
    else
      var last := g.edges[|g.edges| - 1];
      AdjacentEdges(g.(edges := g.edges[..|g.edges| - 1]), v) + (if IncidentTo(last, v) then [last] else [])
  }

  /** AdjacentDegree(v): the number of edges incident to v. */
  function Degree(g: Graph, v: string): nat
  {
    |AdjacentEdges(g, v)|
  }

  /** ContainsEdge(u, v) of an undirected graph: either orientation. */
  function ContainsEdge(g: Graph, u: string, v: string): (b: bool)
    ensures b <==> Adjacent(g, u, v)
  {
    exists e :: e in g.edges && Joins(e, u, v)
  }

  /** TryGetEdge(u, v): the first stored edge between u and v. */
  function TryGetEdge(g: Graph, u: string, v: string): (r: Option<Edge>)
    ensures r.Some? ==> r.value in g.edges && Joins(r.value, u, v)
    ensures r.None? ==> !Adjacent(g, u, v)
    decreases |g.edges|
  {
    if g.edges == [] then None
    else if Joins(g.edges[0], u, v) then Some(g.edges[0])
    else TryGetEdge(g.(edges := g.edges[1..]), u, v)
  }

  /** In a well-formed graph the edge TryGetEdge finds is the only one between its ends. */
  lemma TryGetEdgeFindsTheEdge(g: Graph, e: Edge, u: string, v: string)
    requires WellFormed(g) && e in g.edges && Joins(e, u, v)
    ensures TryGetEdge(g, u, v) == Some(e)
  {
    var r := TryGetEdge(g, u, v);
    assert r.Some?;
    var i :| 0 <= i < |g.edges| && g.edges[i] == e;
    var j :| 0 <= j < |g.edges| && g.edges[j] == r.value;
  }

  /** AddVertex(v): appends v unless already present. */
  function AddVertex(g: Graph, v: string): (r: Graph)
    ensures r.edges == g.edges && r.allowParallelEdges == g.allowParallelEdges
    ensures forall x :: x in r.vertices <==> x in g.vertices || x == v
    ensures Distinct(g.vertices) ==> Distinct(r.vertices)
  {
    if v in g.vertices then g else g.(vertices := g.vertices + [v])
  }

  /** AddVerticesAndEdge(e): adds the missing ends, then the edge, unless the graph
      forbids parallel edges and already joins the two ends. */
  function AddVerticesAndEdge(g: Graph, e: Edge): (r: Graph)
    ensures r.allowParallelEdges == g.allowParallelEdges
    ensures forall x :: x in r.vertices <==> x in g.vertices || x == e.source || x == e.target
    ensures Distinct(g.vertices) ==> Distinct(r.vertices)
    ensures r.edges == g.edges + [e] || (r.edges == g.edges && !g.allowParallelEdges && Adjacent(g, e.source, e.target))
    ensures g.allowParallelEdges ==> r.edges == g.edges + [e]
    ensures !g.allowParallelEdges ==> (r.edges == g.edges + [e] <==> !Adjacent(g, e.source, e.target))
  {
    var withEnds := AddVertex(AddVertex(g, e.source), e.target);
    if !withEnds.allowParallelEdges && ContainsEdge(withEnds, e.source, e.target) then withEnds
    else withEnds.(edges := withEnds.edges + [e])
  }

  /** A graph that refuses parallel edges never gains a second edge between the same two
      vertices. */
  lemma AddEdgeKeepsNoParallel(g: Graph, e: Edge)
    requires !g.allowParallelEdges && NoParallel(g.edges)
    ensures NoParallel(AddVerticesAndEdge(g, e).edges)
  {
    var r := AddVerticesAndEdge(g, e).edges;
    if r != g.edges {
      forall i, j | 0 <= i < j < |r| ensures !Joins(r[j], r[i].source, r[i].target) {
        if j == |g.edges| {
          assert r[i] in g.edges;
          if Joins(r[j], r[i].source, r[i].target) {
            assert Joins(r[i], e.source, e.target);
          }
        }
      }
    }
  }

  /** The vertices are exactly the ends of the edges, as in a graph built only by adding edges. */
  ghost predicate VerticesAreEnds(g: Graph)
  {
    forall x :: x in g.vertices <==> exists e :: e in g.edges && IncidentTo(e, x)
  }

  /** Adding an edge with its ends to such a graph keeps it so. */
  lemma AddEdgeKeepsEnds(g: Graph, e: Edge)
    requires g.allowParallelEdges && VerticesAreEnds(g)
    ensures VerticesAreEnds(AddVerticesAndEdge(g, e))
  {
    var r := AddVerticesAndEdge(g, e);
    assert r.edges == g.edges + [e];
    forall x ensures x in r.vertices <==> exists y :: y in r.edges && IncidentTo(y, x) {
      if x in g.vertices {
        var y :| y in g.edges && IncidentTo(y, x);
        assert y in r.edges;
      } else if x == e.source || x == e.target {
        assert e in r.edges && IncidentTo(e, x);
      }
    }
  }

  /** RemoveVertex(v): drops v and every edge incident to it. */
  function RemoveVertex(g: Graph, v: string): (r: Graph)
    ensures r.allowParallelEdges == g.allowParallelEdges
    ensures forall x :: x in r.vertices ==> x in g.vertices
    ensures forall e :: e in r.edges <==> e in g.edges && !IncidentTo(e, v)
    ensures Distinct(g.vertices) ==>
              Distinct(r.vertices) && v !in r.vertices && forall x :: x in r.vertices <==> x in g.vertices && x != v
  {
    Graph(RemoveFirst(g.vertices, v), KeepNotIncident(g.edges, v), g.allowParallelEdges)
  }

  function KeepNotIncident(es: seq<Edge>, v: string): (r: seq<Edge>)
    ensures forall e :: e in r <==> e in es && !IncidentTo(e, v)
    ensures NoParallel(es) ==> NoParallel(r)
  {
    if es == [] then []
    else
      var p, last := es[..|es| - 1], es[|es| - 1];
      var rest := KeepNotIncident(p, v);
      assert NoParallel(es) ==> NoParallel(p) by {
        forall i, j | 0 <= i < j < |p| ensures p[i] == es[i] && p[j] == es[j] { }
      }
      assert NoParallel(es) && !IncidentTo(last, v) ==> NoParallel(rest + [last]) by {
        if NoParallel(es) && !IncidentTo(last, v) {
          var r := rest + [last];
          forall i, j | 0 <= i < j < |r| ensures !Joins(r[j], r[i].source, r[i].target) {
            if j == |rest| {
              assert r[i] in p;
              var i' :| 0 <= i' < |p| && p[i'] == r[i];
              assert es[i'] == r[i] && es[|es| - 1] == r[j];
            }
          }
        }
      }
      if IncidentTo(last, v) then rest else rest + [last]
  }

  /** Removing a vertex keeps a graph well formed and only loses edges. */
  lemma RemoveVertexWellFormed(g: Graph, v: string)
    requires WellFormed(g)
    ensures WellFormed(RemoveVertex(g, v)) && EdgesSubset(RemoveVertex(g, v), g)
  {
    var r := RemoveVertex(g, v);
    forall e | e in r.edges ensures e.source in r.vertices && e.target in r.vertices {
      assert e in g.edges && !IncidentTo(e, v);
    }
  }
}
