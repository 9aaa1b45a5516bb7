/** The graph helpers of MODA.Impl/Extensions.cs: neighbour lists, the completeness test,
    cloning, the degree-ordered vertex prefix and the mapping-equivalence test. */
module Extensions {
  import opened Collections
  import opened Graphs
  import opened Mappings

  // ---------------------------------------------------------------- neighbours

  /** Both ends of every edge, in edge order. */
  function Endpoints(es: seq<Edge>): (r: seq<string>)
    ensures forall x :: x in r <==> exists e :: e in es && IncidentTo(e, x)
  {
    if es == [] then []
    else
      var p := es[..|es| - 1];
      var last := es[|es| - 1];
      var r := Endpoints(p) + [last.source, last.target];
      assert forall x :: x in r <==> exists e :: e in es && IncidentTo(e, x) by {
        assert es == p + [last];
        forall x ensures x in r <==> exists e :: e in es && IncidentTo(e, x) {
          if x in Endpoints(p) {
            var e :| e in p && IncidentTo(e, x);
            assert e in es;
          } else if x == last.source || x == last.target {
            assert last in es && IncidentTo(last, x);
          }
          if exists e :: e in es && IncidentTo(e, x) {
            var e :| e in es && IncidentTo(e, x);
            if e != last { assert e in p; }
          }
        }
      }
      r
  }

  /** GetNeighbors(vertex): nothing for a blank name; otherwise the ends of the edges adjacent
      to the vertex, gathered in a HashSet, with the vertex itself removed. The source has two
      identical branches selected by its isG flag, so the flag is not modelled. */
  function GetNeighbors(g: Graph, v: string): seq<string>
  {
    if IsNullOrWhiteSpace(v) then [] else RemoveFirst(AddAll([], Endpoints(AdjacentEdges(g, v))), v)
  }

  /** The neighbour list has no repeats, and holds exactly the other ends of the edges at a
      non-blank vertex. */
  lemma NeighborsSpec(g: Graph, v: string)
    ensures Distinct(GetNeighbors(g, v))
    ensures forall w :: w in GetNeighbors(g, v) <==> !IsNullOrWhiteSpace(v) && w != v && Adjacent(g, v, w)
  {
    if !IsNullOrWhiteSpace(v) {
      var ends := Endpoints(AdjacentEdges(g, v));
      var set_ := AddAll([], ends);
      forall w | w != v ensures w in set_ <==> Adjacent(g, v, w) {
        if w in set_ {
          var e :| e in AdjacentEdges(g, v) && IncidentTo(e, w);
          assert Joins(e, v, w);
        }
        if Adjacent(g, v, w) {
          var e :| e in g.edges && Joins(e, v, w);
          assert e in AdjacentEdges(g, v) && IncidentTo(e, w);
        }
      }
    }
  }

  /** A neighbour is another vertex joined to v by an edge. */
  lemma NeighbourJoined(g: Graph, v: string, w: string)
    requires w in GetNeighbors(g, v)
    ensures !IsNullOrWhiteSpace(v) && w != v && Adjacent(g, v, w)
  {
    NeighborsSpec(g, v);
  }

  /** Another vertex joined to a non-blank v by an edge is a neighbour. */
  lemma JoinedNeighbour(g: Graph, v: string, w: string)
    requires !IsNullOrWhiteSpace(v) && w != v && Adjacent(g, v, w)
    ensures w in GetNeighbors(g, v)
  {
    NeighborsSpec(g, v);
  }

  /** In a well-formed graph every neighbour is a vertex. */
  lemma NeighbourIsVertex(g: Graph, v: string, w: string)
    requires WellFormed(g) && w in GetNeighbors(g, v)
    ensures w in g.vertices
  {
    NeighborsSpec(g, v);
    var e :| e in g.edges && Joins(e, v, w);
  }

  /** A graph with fewer edges has fewer neighbours. */
  lemma NeighborsMonotone(a: Graph, b: Graph, v: string)
    requires EdgesSubset(a, b)
    ensures forall w :: w in GetNeighbors(a, v) ==> w in GetNeighbors(b, v)
  {
    NeighborsSpec(a, v);
    NeighborsSpec(b, v);
    forall w | w in GetNeighbors(a, v) ensures w in GetNeighbors(b, v) {
      var e :| e in a.edges && Joins(e, v, w);
      assert e in b.edges;
    }
  }

  /** The neighbour relation of a simple graph is symmetric on non-blank names. */
  lemma NeighborsSymmetric(g: Graph, u: string, v: string)
    requires !IsNullOrWhiteSpace(u) && !IsNullOrWhiteSpace(v)
    ensures v in GetNeighbors(g, u) <==> u in GetNeighbors(g, v)
  {
    NeighborsSpec(g, u);
    NeighborsSpec(g, v);
    if v in GetNeighbors(g, u) {
      var e :| e in g.edges && Joins(e, u, v);
      assert Joins(e, v, u);
    }
    if u in GetNeighbors(g, v) {
      var e :| e in g.edges && Joins(e, v, u);
      assert Joins(e, u, v);
    }
  }

  // ---------------------------------------------------------------- completeness

  /** The CLR's unchecked 32-bit int arithmetic: the exact result wrapped to [-2^31, 2^31). */
  function WrapInt32(x: int): (r: int)
    ensures -0x8000_0000 <= r < 0x8000_0000
    ensures -0x8000_0000 <= x < 0x8000_0000 ==> r == x
  {
    (x + 0x8000_0000) % 0x1_0000_0000 - 0x8000_0000
  }

  /** C#'s integer division, which truncates toward zero. */
  function DivTrunc(a: int, b: int): int
    requires b > 0
  {
    if a >= 0 then a / b else -((-a) / b)
  }

  /** IsComplete: EdgeCount == VertexCount * (VertexCount - 1) / 2 in int arithmetic. */
  function IsComplete(g: Graph): bool
  {
    |g.edges| == DivTrunc(WrapInt32(|g.vertices| * (|g.vertices| - 1)), 2)
  }

  lemma ProductOfConsecutiveIsEven(n: nat)
    ensures (n * (n - 1)) % 2 == 0
  {
    var k := n / 2;
    if n % 2 == 0 {
      assert n * (n - 1) == 2 * (k * (n - 1));
    } else {
      assert n - 1 == 2 * k;
      assert n * (n - 1) == 2 * (n * k);
    }
  }

  lemma MulMonotone(a: nat, b: nat, c: nat)
    requires b <= c
    ensures a * b <= a * c
  {
  }

  /** n (n - 1) fits in an int for n up to 46341. */
  lemma ProductFitsInt32(n: nat)
    requires n <= 46341
    ensures 0 <= n * (n - 1) < 0x8000_0000
  {
    if n > 0 {
      var m: nat := n - 1;
      MulMonotone(n, m, 46340);
      MulMonotone(46340, n, 46341);
      assert 46341 * 46340 == 2147441940;
    }
  }

  /** Below 46342 vertices the product does not wrap, and IsComplete is the plain count test. */
  lemma IsCompleteWithoutOverflow(g: Graph)
    requires |g.vertices| <= 46341
    ensures IsComplete(g) <==> 2 * |g.edges| == |g.vertices| * (|g.vertices| - 1)
  {
    var n := |g.vertices|;
    ProductFitsInt32(n);
    ProductOfConsecutiveIsEven(n);
    var x := n * (n - 1);
    assert WrapInt32(x) == x;
    assert DivTrunc(x, 2) == x / 2;
  }

  /** The unordered pairs of distinct elements of vs. */
  ghost function Pairs(vs: set<string>): set<set<string>>
  {
    set u, v | u in vs && v in vs && u != v :: {u, v}
  }

  /** The unordered pairs {x, v} for v in vs. */
  ghost function Star(x: string, vs: set<string>): set<set<string>>
  {
    set v | v in vs :: {x, v}
  }

  lemma PairEquality(a: string, b: string, c: string, d: string)
    requires a != b
    ensures {a, b} == {c, d} <==> (a == c && b == d) || (a == d && b == c)
  {
    if {a, b} == {c, d} {
      assert a in {c, d} && b in {c, d};
      assert c in {a, b} && d in {a, b};
    }
  }

  lemma {:induction false} StarCard(x: string, vs: set<string>)
    requires x !in vs
    ensures |Star(x, vs)| == |vs|
    decreases vs
  {
    if vs != {} {
      var y :| y in vs;
      var rest := vs - {y};
      StarCard(x, rest);
      assert Star(x, vs) == Star(x, rest) + {{x, y}};
      assert {x, y} !in Star(x, rest) by {
        forall v | v in rest ensures {x, v} != {x, y} {
          PairEquality(x, v, x, y);
        }
      }
    }
  }

  /** There are n (n - 1) / 2 unordered pairs of n elements. */
  lemma {:induction false} PairsCard(vs: set<string>)
    ensures 2 * |Pairs(vs)| == |vs| * (|vs| - 1)
    decreases vs
  {
    if vs != {} {
      var x :| x in vs;
      var rest := vs - {x};
      PairsCard(rest);
      StarCard(x, rest);
      assert Pairs(vs) == Pairs(rest) + Star(x, rest) by {
        forall p | p in Pairs(vs) ensures p in Pairs(rest) + Star(x, rest) {
          var u, v :| u in vs && v in vs && u != v && p == {u, v};
          if u == x {
            assert p in Star(x, rest);
          } else if v == x {
            assert p == {x, u};
            assert p in Star(x, rest);
          } else {
            assert p in Pairs(rest);
          }
        }
      }
      assert Pairs(rest) * Star(x, rest) == {} by {
        forall p | p in Star(x, rest) ensures p !in Pairs(rest) {
          assert x in p;
        }
      }
      assert |Pairs(vs)| == |Pairs(rest)| + |Star(x, rest)|;
      assert |vs| == |rest| + 1;
      assert |vs| * (|vs| - 1) == (|rest| + 1) * |rest|;
    }
  }

  /** The ends of every edge, as unordered pairs. */
  ghost function EdgePairs(es: seq<Edge>): set<set<string>>
  {
    set e | e in es :: {e.source, e.target}
  }

  /** The last edge of a sequence without parallel edges joins a pair no earlier edge joins. */
  lemma LastPairIsNew(es: seq<Edge>)
    requires es != [] && NoParallel(es) && forall e :: e in es ==> e.source != e.target
    ensures {es[|es| - 1].source, es[|es| - 1].target} !in EdgePairs(es[..|es| - 1])
  {
    var p, last := es[..|es| - 1], es[|es| - 1];
    forall i | 0 <= i < |p| ensures {p[i].source, p[i].target} != {last.source, last.target} {
      assert p[i] == es[i] && p[i] in es;
      PairEquality(p[i].source, p[i].target, last.source, last.target);
    }
  }

  /** Without parallel edges and loops, the edges join as many pairs as there are edges. */
  lemma {:induction false} EdgePairsCard(es: seq<Edge>)
    requires forall e :: e in es ==> e.source != e.target
    requires NoParallel(es)
    ensures |EdgePairs(es)| == |es|
  {
    if es != [] {
      var p, last := es[..|es| - 1], es[|es| - 1];
      assert es == p + [last];
      assert NoParallel(p) by {
        forall i, j | 0 <= i < j < |p| ensures !Joins(p[j], p[i].source, p[i].target) {
          assert p[i] == es[i] && p[j] == es[j];
        }
      }
      EdgePairsCard(p);
      assert EdgePairs(es) == EdgePairs(p) + {{last.source, last.target}};
      LastPairIsNew(es);
    }
  }

  /** Every two distinct vertices are adjacent. */
  ghost predicate AllPairsAdjacent(g: Graph)
  {
    forall u, v :: u in g.vertices && v in g.vertices && u != v ==> Adjacent(g, u, v)
  }

  lemma EdgePairsWithinPairs(g: Graph)
    requires WellFormed(g)
    ensures EdgePairs(g.edges) <= Pairs(SetOf(g.vertices))
  {
    forall p | p in EdgePairs(g.edges) ensures p in Pairs(SetOf(g.vertices)) {
      var e :| e in g.edges && p == {e.source, e.target};
      assert e.source in SetOf(g.vertices) && e.target in SetOf(g.vertices);
    }
  }

  lemma AllPairsAdjacentIffCovered(g: Graph)
    ensures AllPairsAdjacent(g) <==> Pairs(SetOf(g.vertices)) <= EdgePairs(g.edges)
  {
    var vs := SetOf(g.vertices);
    if AllPairsAdjacent(g) {
      forall p | p in Pairs(vs) ensures p in EdgePairs(g.edges) {
        var u, v :| u in vs && v in vs && u != v && p == {u, v};
        var e :| e in g.edges && Joins(e, u, v);
        assert p == {e.source, e.target};
      }
    }
    if Pairs(vs) <= EdgePairs(g.edges) {
      forall u, v | u in g.vertices && v in g.vertices && u != v ensures Adjacent(g, u, v) {
        assert {u, v} in Pairs(vs);
        var e :| e in g.edges && {e.source, e.target} == {u, v};
        PairEquality(u, v, e.source, e.target);
        assert Joins(e, u, v);
      }
    }
  }

  /** For a simple graph (and below the overflow bound) IsComplete holds exactly when every
      two distinct vertices are adjacent. */
  lemma CompleteIffAllPairsAdjacent(g: Graph)
    requires WellFormed(g) && |g.vertices| <= 46341
    ensures IsComplete(g) <==> AllPairsAdjacent(g)
  {
    var vs := SetOf(g.vertices);
    var ep, all := EdgePairs(g.edges), Pairs(SetOf(g.vertices));
    var n := |g.vertices|;
    SetOfCard(g.vertices);
    assert |vs| == n;
    PairsCard(vs);
    assert 2 * |all| == n * (n - 1);
    IsCompleteWithoutOverflow(g);
    assert IsComplete(g) <==> |g.edges| == |all|;
    EdgePairsCard(g.edges);
    EdgePairsWithinPairs(g);
    SubsetCard(ep, all);
    assert |ep| == |all| <==> ep == all;
    AllPairsAdjacentIffCovered(g);
  }

  // ---------------------------------------------------------------- cloning

  /** x is an end of an edge of p + [last] exactly when it is an end of an edge of p or of last. */
  lemma EndsOfAppended(p: seq<Edge>, last: Edge, x: string)
    ensures (exists e :: e in p + [last] && IncidentTo(e, x)) <==>
              (exists e :: e in p && IncidentTo(e, x)) || x == last.source || x == last.target
  {
    if exists e :: e in p + [last] && IncidentTo(e, x) {
      var e :| e in p + [last] && IncidentTo(e, x);
      if e != last { assert e in p; }
    }
    if exists e :: e in p && IncidentTo(e, x) {
      var e :| e in p && IncidentTo(e, x);
      assert e in p + [last];
    }
    if x == last.source || x == last.target {
      assert last in p + [last];
    }
  }

  /** AddVerticesAndEdgeRange on a graph that allows parallel edges: every edge is appended. */
  function AddVerticesAndEdgeRange(g: Graph, es: seq<Edge>): (r: Graph)
    requires g.allowParallelEdges
    ensures r.allowParallelEdges && r.edges == g.edges + es
  {
    if es == [] then g
    else
      var p, last := es[..|es| - 1], es[|es| - 1];
      assert es == p + [last];
      AddVerticesAndEdge(AddVerticesAndEdgeRange(g, p), last)
  }

  /** The range adds exactly the ends of the new edges to the vertices, each once. */
  lemma {:induction false} AddVerticesAndEdgeRangeVertices(g: Graph, es: seq<Edge>)
    requires g.allowParallelEdges
    ensures forall x :: x in AddVerticesAndEdgeRange(g, es).vertices <==>
              x in g.vertices || exists e :: e in es && IncidentTo(e, x)
    ensures Distinct(g.vertices) ==> Distinct(AddVerticesAndEdgeRange(g, es).vertices)
  {
    if es != [] {
      var p, last := es[..|es| - 1], es[|es| - 1];
      assert es == p + [last];
      AddVerticesAndEdgeRangeVertices(g, p);
      forall x ensures x in AddVerticesAndEdgeRange(g, es).vertices <==>
                         x in g.vertices || exists e :: e in es && IncidentTo(e, x) {
        EndsOfAppended(p, last, x);
      }
    }
  }

  /** Clone: a fresh graph built from the edges alone. */
  function Clone(g: Graph): Graph
  {
    AddVerticesAndEdgeRange(EmptyGraph(true), g.edges)
  }

  /** The clone has the original's edges, and its vertices are the ends of those edges:
      the original's vertices minus its isolated ones. */
  lemma CloneSpec(g: Graph)
    requires WellFormed(g)
    ensures Clone(g).edges == g.edges && WellFormed(Clone(g))
    ensures forall v :: v in Clone(g).vertices <==> v in g.vertices && Degree(g, v) > 0
  {
    var c := Clone(g);
    AddVerticesAndEdgeRangeVertices(EmptyGraph(true), g.edges);
    forall v ensures v in c.vertices <==> v in g.vertices && Degree(g, v) > 0 {
      if v in c.vertices {
        var e :| e in g.edges && IncidentTo(e, v);
        assert e in AdjacentEdges(g, v);
      }
      if v in g.vertices && Degree(g, v) > 0 {
        assert AdjacentEdges(g, v)[0] in AdjacentEdges(g, v);
      }
    }
  }

  /** The vertex counts agree (the debug assertion in Clone) exactly when no vertex is isolated. */
  lemma CloneVertexCount(g: Graph)
    requires WellFormed(g)
    ensures |Clone(g).vertices| == |g.vertices| <==> forall v :: v in g.vertices ==> Degree(g, v) > 0
  {
    var c := Clone(g);
    CloneSpec(g);
    if |c.vertices| == |g.vertices| {
      DistinctWithin(c.vertices, g.vertices);
    }
    if forall v :: v in g.vertices ==> Degree(g, v) > 0 {
      DistinctWithin(c.vertices, g.vertices);
      DistinctWithin(g.vertices, c.vertices);
    } else {
      DistinctWithin(c.vertices, g.vertices);
    }
  }

  // ---------------------------------------------------------------- degree sequence

  /** Enumerable.Take(count): the first count elements (none for count <= 0). */
  function Take(s: seq<string>, count: int): (r: seq<string>)
    ensures r == s[..if count <= 0 then 0 else if count < |s| then count else |s|]
  {
    if count <= 0 then [] else if count >= |s| then s else s[..count]
  }

  /** Degrees along s never increase. */
  ghost predicate NonIncreasingDegrees(g: Graph, s: seq<string>)
  {
    forall i, j :: 0 <= i < j < |s| ==> Degree(g, s[i]) >= Degree(g, s[j])
  }

  /** The elements of s whose degree is d, in order. */
  function WithDegree(g: Graph, s: seq<string>, d: nat): seq<string>
  {
    if s == [] then [] else (if Degree(g, s[0]) == d then [s[0]] else []) + WithDegree(g, s[1..], d)
  }

  /** Prepending an element whose degree bounds the rest keeps the order non-increasing. */
  lemma PrependKeepsOrder(g: Graph, a: string, rest: seq<string>)
    requires NonIncreasingDegrees(g, rest)
    requires forall y :: y in rest ==> Degree(g, a) >= Degree(g, y)
    ensures NonIncreasingDegrees(g, [a] + rest)
  {
    var s := [a] + rest;
    forall i, j | 0 <= i < j < |s| ensures Degree(g, s[i]) >= Degree(g, s[j]) {
      assert s[j] == rest[j - 1];
      if i > 0 { assert s[i] == rest[i - 1]; } else { assert rest[j - 1] in rest; }
    }
  }

  /** Places x before the first element of sorted whose degree is not greater than its own. */
  function InsertByDegree(g: Graph, x: string, sorted: seq<string>): (r: seq<string>)
    ensures multiset(r) == multiset(sorted) + multiset{x}
  {
    if sorted == [] || Degree(g, sorted[0]) <= Degree(g, x) then [x] + sorted
    else
      assert sorted == [sorted[0]] + sorted[1..];
      [sorted[0]] + InsertByDegree(g, x, sorted[1..])
  }

  /** Inserting into a non-increasing sequence keeps it non-increasing. */
  lemma {:induction false} InsertByDegreeOrdered(g: Graph, x: string, sorted: seq<string>)
    requires NonIncreasingDegrees(g, sorted)
    ensures NonIncreasingDegrees(g, InsertByDegree(g, x, sorted))
  {
    if sorted == [] || Degree(g, sorted[0]) <= Degree(g, x) {
      forall y | y in sorted ensures Degree(g, x) >= Degree(g, y) {
        var k :| 0 <= k < |sorted| && sorted[k] == y;
        assert k == 0 || Degree(g, sorted[0]) >= Degree(g, sorted[k]);
      }
      PrependKeepsOrder(g, x, sorted);
    } else {
      var tail := sorted[1..];
      var rest := InsertByDegree(g, x, tail);
      assert NonIncreasingDegrees(g, tail) by {
        forall i, j | 0 <= i < j < |tail| ensures Degree(g, tail[i]) >= Degree(g, tail[j]) {
          assert tail[i] == sorted[i + 1] && tail[j] == sorted[j + 1];
        }
      }
      InsertByDegreeOrdered(g, x, tail);
      forall y | y in rest ensures Degree(g, sorted[0]) >= Degree(g, y) {
        assert y in multiset(rest);
        if y != x {
          assert y in multiset(tail);
          var k :| 0 <= k < |tail| && tail[k] == y;
          assert sorted[k + 1] == y;
        }
      }
      PrependKeepsOrder(g, sorted[0], rest);
    }
  }

  /** Inserting x adds it to the front of the elements of its own degree and changes no other
      degree class, so equal-degree elements keep their relative order. */
  lemma {:induction false} InsertByDegreeStable(g: Graph, x: string, sorted: seq<string>, d: nat)
    ensures WithDegree(g, InsertByDegree(g, x, sorted), d)
         == (if Degree(g, x) == d then [x] else []) + WithDegree(g, sorted, d)
  {
    var r := InsertByDegree(g, x, sorted);
    if sorted == [] || Degree(g, sorted[0]) <= Degree(g, x) {
      assert r[1..] == sorted;
    } else {
      var rest := InsertByDegree(g, x, sorted[1..]);
      assert r[0] == sorted[0] && r[1..] == rest;
      InsertByDegreeStable(g, x, sorted[1..], d);
      if Degree(g, sorted[0]) == d {
        assert Degree(g, x) != d;
      }
    }
  }

  /** OrderByDescending(degree): a stable sort, non-increasing in degree. */
  function SortByDegreeDescending(g: Graph, s: seq<string>): (r: seq<string>)
    ensures multiset(r) == multiset(s)
    ensures NonIncreasingDegrees(g, r)
  {
    if s == [] then []
    else
      var rest := SortByDegreeDescending(g, s[1..]);
      assert s == [s[0]] + s[1..];
      InsertByDegreeOrdered(g, s[0], rest);
      InsertByDegree(g, s[0], rest)
  }

  /** The sort is stable: for every degree, the elements of that degree come out in the order
      they went in. */
  lemma {:induction false} SortByDegreeDescendingStable(g: Graph, s: seq<string>, d: nat)
    ensures WithDegree(g, SortByDegreeDescending(g, s), d) == WithDegree(g, s, d)
  {
    if s != [] {
      SortByDegreeDescendingStable(g, s[1..], d);
      InsertByDegreeStable(g, s[0], SortByDegreeDescending(g, s[1..]), d);
    }
  }

  /** GetDegreeSequence(count): the first count vertices in enumeration order, ordered by
      descending degree. */
  function GetDegreeSequence(g: Graph, count: int): seq<string>
  {
    if |g.vertices| == 0 then [] else SortByDegreeDescending(g, Take(g.vertices, count))
  }

  lemma {:induction false} DistinctOccursOnce(s: seq<string>, x: string)
    requires Distinct(s)
    ensures multiset(s)[x] <= 1
  {
    if s != [] {
      var p := s[..|s| - 1];
      assert s == p + [s[|s| - 1]];
      assert Distinct(p) by {
        forall i, j | 0 <= i < j < |p| ensures p[i] != p[j] { assert p[i] == s[i] && p[j] == s[j]; }
      }
      DistinctOccursOnce(p, x);
      if x == s[|s| - 1] {
        assert x !in p by {
          forall i | 0 <= i < |p| ensures p[i] != x { assert p[i] == s[i]; }
        }
      }
    }
  }

  lemma RepeatOccursTwice(s: seq<string>, i: nat, j: nat)
    requires i < j < |s| && s[i] == s[j]
    ensures multiset(s)[s[i]] >= 2
  {
    var front := s[..j];
    assert s == front + [s[j]] + s[j + 1..];
    assert s[i] == front[i];
    assert s[i] in multiset(front);
  }

  /** A permutation of a sequence without repeats has none either. */
  lemma PermutationKeepsDistinct(a: seq<string>, b: seq<string>)
    requires Distinct(a) && multiset(a) == multiset(b)
    ensures Distinct(b)
  {
    forall i, j | 0 <= i < j < |b| ensures b[i] != b[j] {
      if b[i] == b[j] {
        RepeatOccursTwice(b, i, j);
        DistinctOccursOnce(a, b[i]);
      }
    }
  }

  /** The degree sequence is a stable descending-degree ordering of a prefix of the vertices. */
  lemma GetDegreeSequenceSpec(g: Graph, count: int)
    ensures var r := GetDegreeSequence(g, count);
      var prefix := Take(g.vertices, count);
      && |r| == |prefix|
      && multiset(r) == multiset(prefix)
      && NonIncreasingDegrees(g, r)
      && (forall d: nat :: WithDegree(g, r, d) == WithDegree(g, prefix, d))
      && (Distinct(g.vertices) ==> Distinct(r))
  {
    var r := GetDegreeSequence(g, count);
    var prefix := Take(g.vertices, count);
    assert |r| == |multiset(r)| == |multiset(prefix)| == |prefix|;
    forall d: nat ensures WithDegree(g, r, d) == WithDegree(g, prefix, d) {
      if |g.vertices| > 0 { SortByDegreeDescendingStable(g, prefix, d); }
    }
    if Distinct(g.vertices) {
      assert Distinct(prefix) by {
        forall i, j | 0 <= i < j < |prefix| ensures prefix[i] != prefix[j] {
          assert prefix[i] == g.vertices[i] && prefix[j] == g.vertices[j];
        }
      }
      PermutationKeepsDistinct(prefix, r);
    }
  }

  // ---------------------------------------------------------------- mapping equivalence

  /** List.Find over the vertices: the first whose degree differs between the two graphs. */
  function FindDegreeMismatch(vs: seq<string>, a: Graph, b: Graph): (r: Option<string>)
    ensures r.Some? ==> r.value in vs && Degree(a, r.value) != Degree(b, r.value)
    ensures r.None? ==> forall v :: v in vs ==> Degree(a, v) == Degree(b, v)
  {
    if vs == [] then None
    else if Degree(a, vs[0]) != Degree(b, vs[0]) then Some(vs[0])
    else FindDegreeMismatch(vs[1..], a, b)
  }

  /** The second per-vertex degree loop of IsIsomorphicWith. */
  function DegreesAgree(vs: seq<string>, a: Graph, b: Graph): bool
  {
    if vs == [] then true
    else if Degree(a, vs[0]) != Degree(b, vs[0]) then false
    else DegreesAgree(vs[1..], a, b)
  }

  /** IsIsomorphicWith(other, inputSubgraph); None stands for a null other mapping. */
  function IsIsomorphicWith(self: Mapping, other: Option<Mapping>, inputSubgraph: Graph): bool
  {
    if other.None? then false
    else
      var o := other.value;
      if !(SetOf(Values(self.fn)) == SetOf(Values(o.fn)) && SetOf(Keys(self.fn)) == SetOf(Keys(o.fn))) then false
      else if |self.mapOnInputSubGraph.edges| != |o.mapOnInputSubGraph.edges| then false
      else if FindDegreeMismatch(self.mapOnInputSubGraph.vertices, self.mapOnInputSubGraph, o.mapOnInputSubGraph).Some? then
        IsComplete(inputSubgraph)
      else DegreesAgree(self.mapOnInputSubGraph.vertices, self.mapOnInputSubGraph, o.mapOnInputSubGraph)
  }

  /** The second degree loop runs only when the first found no mismatch, so it cannot fail. */
  lemma {:induction false} SecondDegreeLoopNeverFails(vs: seq<string>, a: Graph, b: Graph)
    requires FindDegreeMismatch(vs, a, b).None?
    ensures DegreesAgree(vs, a, b)
  {
    if vs != [] {
      SecondDegreeLoopNeverFails(vs[1..], a, b);
    }
  }

  /** The three early rejections: a null mapping, different domains or ranges, different
      numbers of query-edge images. */
  lemma IsIsomorphicWithRejects(self: Mapping, other: Option<Mapping>, inputSubgraph: Graph)
    requires || other.None?
             || SetOf(Values(self.fn)) != SetOf(Values(other.value.fn))
             || SetOf(Keys(self.fn)) != SetOf(Keys(other.value.fn))
             || |self.mapOnInputSubGraph.edges| != |other.value.mapOnInputSubGraph.edges|
    ensures !IsIsomorphicWith(self, other, inputSubgraph)
  {
  }

  /** Past the early rejections the verdict is: if some vertex's degree differs between the two
      query-edge images, whether the given subgraph is complete; otherwise true. */
  lemma IsIsomorphicWithDecision(self: Mapping, other: Mapping, inputSubgraph: Graph)
    requires SetOf(Values(self.fn)) == SetOf(Values(other.fn)) && SetOf(Keys(self.fn)) == SetOf(Keys(other.fn))
    requires |self.mapOnInputSubGraph.edges| == |other.mapOnInputSubGraph.edges|
    ensures IsIsomorphicWith(self, Some(other), inputSubgraph) ==
      if exists v :: v in self.mapOnInputSubGraph.vertices
                    && Degree(self.mapOnInputSubGraph, v) != Degree(other.mapOnInputSubGraph, v)
      then IsComplete(inputSubgraph) else true
  {
    var a, b := self.mapOnInputSubGraph, other.mapOnInputSubGraph;
    if FindDegreeMismatch(a.vertices, a, b).None? {
      SecondDegreeLoopNeverFails(a.vertices, a, b);
    }
  }

  /** Every mapping is isomorphic with itself. */
  lemma IsIsomorphicWithReflexive(m: Mapping, inputSubgraph: Graph)
    ensures IsIsomorphicWith(m, Some(m), inputSubgraph)
  {
    SecondDegreeLoopNeverFails(m.mapOnInputSubGraph.vertices, m.mapOnInputSubGraph, m.mapOnInputSubGraph);
  }
}
