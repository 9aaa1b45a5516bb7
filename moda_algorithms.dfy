/** The recursive extension search of MODA.Impl/ModaAlgorithms.cs (after Grochow and Kellis):
    a partial map f from query vertices (H) to input vertices (G) is grown one vertex at a time,
    picking the most constrained query vertex m and trying every candidate input vertex n next
    to the current range. Three set-keyed memo tables are threaded through as a MemoCaches
    object. The graph G searched may be a shrinking copy of an original graph G0, so the tables
    are only ever claimed to be bounded by G0 from above and by the current G from below. */
module ModaAlgorithms {
  import opened Collections
  import opened Graphs
  import opened Mappings
  import opened Extensions

  // ---------------------------------------------------------------- what the tables hold

  /** No vertex of S has a neighbour outside S. */
  ghost predicate NoFrontier(H: Graph, S: set<string>)
  {
    forall d, w :: d in S && w in GetNeighbors(H, d) ==> w in S
  }

  /** m lies outside S and next to some vertex of S. */
  ghost predicate InFrontier(H: Graph, S: set<string>, m: string)
  {
    m !in S && exists d :: d in S && m in GetNeighbors(H, d)
  }

  /** A most-constrained-neighbour entry for the domain set S: blank when there is no
      frontier, otherwise a frontier vertex. */
  ghost predicate PickOk(H: Graph, S: set<string>, m: string)
  {
    (NoFrontier(H, S) ==> m == "") && (!NoFrontier(H, S) ==> InFrontier(H, S, m))
  }

  /** A neighbours-of-range entry for the range set S: no repeats; every candidate is outside S
      and next to S in the original graph G0; every neighbour of S in the current graph G that
      is outside S is a candidate. */
  ghost predicate CandidatesOk(G0: Graph, G: Graph, S: set<string>, c: seq<string>)
  {
    && Distinct(c)
    && (forall x :: x in c ==> x !in S && exists r :: r in S && x in GetNeighbors(G0, r))
    && (forall r, x :: r in S && x in GetNeighbors(G, r) && x !in S ==> x in c)
  }

  /** An induced-subgraph entry for the vertex set S: its edges are edges of G0 between
      vertices of S, and it has every edge of the current G between vertices of S. */
  ghost predicate SubgraphOk(G0: Graph, G: Graph, S: set<string>, sub: Graph)
  {
    && (forall e :: e in sub.edges ==> e in G0.edges && e.source in S && e.target in S)
    && (forall e :: e in G.edges && e.source in S && e.target in S ==> e in sub.edges)
  }

  /** The three memo dictionaries (InputSubgraphs, NeighboursOfRange, MostConstrainedNeighbours),
      keyed by the set of the key array as the key comparer prescribes. */
  class MemoCaches {
    var inputSubgraphs: map<set<string>, Graph>
    var neighboursOfRange: map<set<string>, seq<string>>
    var mostConstrainedNeighbours: map<set<string>, string>

    /** The tables as the driver creates them: empty. */
    constructor ()
      ensures inputSubgraphs == map[] && neighboursOfRange == map[] && mostConstrainedNeighbours == map[]
    {
      inputSubgraphs := map[];
      neighboursOfRange := map[];
      mostConstrainedNeighbours := map[];
    }

    ghost predicate PicksOk(H: Graph)
      reads this`mostConstrainedNeighbours
    {
      forall S :: S in mostConstrainedNeighbours ==> PickOk(H, S, mostConstrainedNeighbours[S])
    }

    ghost predicate RangesOk(G0: Graph, G: Graph)
      reads this`neighboursOfRange
    {
      forall S :: S in neighboursOfRange ==> CandidatesOk(G0, G, S, neighboursOfRange[S])
    }

    ghost predicate SubgraphsOk(G0: Graph, G: Graph)
      reads this`inputSubgraphs
    {
      forall S :: S in inputSubgraphs ==> SubgraphOk(G0, G, S, inputSubgraphs[S])
    }

    ghost predicate Valid(H: Graph, G0: Graph, G: Graph)
      reads this
    {
      PicksOk(H) && RangesOk(G0, G) && SubgraphsOk(G0, G)
    }
  }

  /** The empty tables are valid for any graphs. */
  lemma EmptyCachesValid(caches: MemoCaches, H: Graph, G0: Graph, G: Graph)
    requires caches.inputSubgraphs == map[] && caches.neighboursOfRange == map[]
    requires caches.mostConstrainedNeighbours == map[]
    ensures caches.Valid(H, G0, G)
  {
  }

  /** The tables stay valid while the searched graph loses edges: entries computed on a larger
      copy still lie within G0 and still cover the smaller copy. */
  lemma ValidShrinks(caches: MemoCaches, H: Graph, G0: Graph, G: Graph, G': Graph)
    requires caches.Valid(H, G0, G) && EdgesSubset(G', G)
    ensures caches.Valid(H, G0, G')
  {
    forall S | S in caches.neighboursOfRange
      ensures CandidatesOk(G0, G', S, caches.neighboursOfRange[S])
    {
      forall r, x | r in S && x in GetNeighbors(G', r) && x !in S
        ensures x in caches.neighboursOfRange[S]
      {
        NeighborsMonotone(G', G, r);
      }
    }
  }

  // ---------------------------------------------------------------- the neighbour scan

  /** What the scan loops of GetMostConstrainedNeighbour and ChooseNeighboursOfRange gather
      from index i up: the neighbours outside D of D[|D|-1], then of D[|D|-2], ..., then of D[i]. */
  function Scan(G: Graph, D: seq<string>, i: nat): seq<string>
    requires i <= |D|
    decreases |D| - i
  {
    if i == |D| then [] else Scan(G, D, i + 1) + Without(GetNeighbors(G, D[i]), D)
  }

  /** The scan gathers exactly the vertices outside D next to one of D[i..]. */
  lemma {:induction false} ScanMembers(G: Graph, D: seq<string>, i: nat)
    requires i <= |D|
    ensures forall x :: x in Scan(G, D, i) <==> x !in D && exists k :: i <= k < |D| && x in GetNeighbors(G, D[k])
    decreases |D| - i
  {
    if i < |D| {
      var rest, here := Scan(G, D, i + 1), Without(GetNeighbors(G, D[i]), D);
      ScanMembers(G, D, i + 1);
      WithoutSpec(GetNeighbors(G, D[i]), D);
      assert Scan(G, D, i) == rest + here;
      forall x ensures x in Scan(G, D, i) <==> x !in D && exists k :: i <= k < |D| && x in GetNeighbors(G, D[k]) {
        if x in rest {
          var k :| i + 1 <= k < |D| && x in GetNeighbors(G, D[k]);
        } else if x in here {
          assert x in GetNeighbors(G, D[i]);
        }
        if x !in D && exists k :: i <= k < |D| && x in GetNeighbors(G, D[k]) {
          var k :| i <= k < |D| && x in GetNeighbors(G, D[k]);
          if k == i { assert x in here; } else { assert x in rest; }
        }
      }
    }
  }

  /** The whole scan is empty exactly when the domain has no frontier, and otherwise its first
      element is a frontier vertex. */
  lemma ScanFrontier(H: Graph, D: seq<string>)
    ensures Scan(H, D, 0) == [] <==> NoFrontier(H, SetOf(D))
    ensures Scan(H, D, 0) != [] ==> InFrontier(H, SetOf(D), Scan(H, D, 0)[0])
  {
    var S := SetOf(D);
    ScanMembers(H, D, 0);
    if Scan(H, D, 0) == [] {
      forall d, w | d in S && w in GetNeighbors(H, d) ensures w in S {
        var k :| 0 <= k < |D| && D[k] == d;
      }
    } else {
      var x := Scan(H, D, 0)[0];
      assert x in Scan(H, D, 0);
      var k :| 0 <= k < |D| && x in GetNeighbors(H, D[k]);
      assert D[k] in S && x !in S;
    }
  }

  /** result.Count == 0 ? "" : result[0] */
  function FirstOrBlank(s: seq<string>): string
  {
    if s == [] then "" else s[0]
  }

  /** What a miss stores in MostConstrainedNeighbours is a valid pick. */
  lemma ScanPickOk(H: Graph, D: seq<string>)
    ensures PickOk(H, SetOf(D), FirstOrBlank(Scan(H, D, 0)))
  {
    ScanFrontier(H, D);
  }

  /** What a miss stores in NeighboursOfRange is a valid candidate list. */
  lemma ScanCandidatesOk(G0: Graph, G: Graph, R: seq<string>)
    requires EdgesSubset(G, G0)
    ensures CandidatesOk(G0, G, SetOf(R), AddAll([], Scan(G, R, 0)))
  {
    var S, c := SetOf(R), AddAll([], Scan(G, R, 0));
    ScanMembers(G, R, 0);
    forall x | x in c ensures x !in S && exists r :: r in S && x in GetNeighbors(G0, r) {
      var k :| 0 <= k < |R| && x in GetNeighbors(G, R[k]);
      NeighborsMonotone(G, G0, R[k]);
      assert R[k] in S;
    }
    forall r, x | r in S && x in GetNeighbors(G, r) && x !in S ensures x in c {
      var k :| 0 <= k < |R| && R[k] == r;
    }
  }

  lemma WithoutStep(s: seq<string>, used: seq<string>, j: nat)
    requires j < |s|
    ensures Without(s[..j + 1], used) == Without(s[..j], used) + (if s[j] in used then [] else [s[j]])
  {
    assert s[..j + 1][..j] == s[..j];
  }

  /** One step of the removal loop on an element of used: with the kept prefix w in front,
      the element sits at the boundary, and removing it moves the boundary one place on. */
  lemma RemoveStep(w: seq<string>, s: seq<string>, j: nat)
    requires j < |s| && s[j] !in w
    ensures (w + s[j..])[|w|] == s[j]
    ensures RemoveFirst(w + s[j..], s[j]) == w + s[j + 1..]
  {
    var local := w + s[j..];
    assert local[..|w|] == w;
    RemoveFirstAt(local, |w|);
    assert local[|w| + 1..] == s[j + 1..];
  }

  /** One step of the removal loop on an element outside used: the element at the boundary
      joins the kept prefix. */
  lemma KeepStep(w: seq<string>, s: seq<string>, j: nat)
    requires j < |s|
    ensures (w + s[j..])[|w|] == s[j]
    ensures w + s[j..] == (w + [s[j]]) + s[j + 1..]
  {
    assert s[j..] == [s[j]] + s[j + 1..];
  }

  /** One iteration of the removal loop, with kept the filtered prefix original[..j]: the
      element at the boundary is original[j]; removing it when it is in used, or keeping it
      otherwise, gives the filtered prefix original[..j + 1] followed by original[j + 1..]. */
  lemma RemoveLoopStep(original: seq<string>, used: seq<string>, j: nat, kept: seq<string>)
    requires j < |original| && kept == Without(original[..j], used)
    ensures (kept + original[j..])[|kept|] == original[j]
    ensures original[j] in used ==>
              && Without(original[..j + 1], used) == kept
              && RemoveFirst(kept + original[j..], original[j]) == kept + original[j + 1..]
    ensures original[j] !in used ==>
              && Without(original[..j + 1], used) == kept + [original[j]]
              && kept + original[j..] == (kept + [original[j]]) + original[j + 1..]
  {
    WithoutStep(original, used, j);
    if original[j] in used {
      WithoutSpec(original[..j], used);
      RemoveStep(kept, original, j);
    } else {
      KeepStep(kept, original, j);
    }
  }

  /** The counter-indexed removal loop: removes from local every element of used, keeping the
      others in order. The bound local.Count + counter stays the original length. */
  method RemoveUsed(original: seq<string>, used: seq<string>) returns (local: seq<string>)
    ensures local == Without(original, used)
  {
    local := original;
    var counter := 0;
    var j := 0;
    ghost var kept: seq<string> := [];
    while j < |local| + counter
      invariant 0 <= counter <= j <= |original|
      invariant |local| + counter == |original| && |kept| == j - counter
      invariant kept == Without(original[..j], used)
      invariant local == kept + original[j..]
      decreases |original| - j
    {
      RemoveLoopStep(original, used, j, kept);
      if local[j - counter] in used {
        local := RemoveFirst(local, local[j - counter]);
        counter := counter + 1;
        if |local| == 0 {
          TakeWhole(original, j + 1);
          break;
        }
      } else {
        kept := kept + [original[j]];
      }
      j := j + 1;
    }
    TakeWhole(original, |original|);
  }

  /** foreach (var item in local) result.Add(item) on a HashSet. */
  method AddEach(acc: seq<string>, xs: seq<string>) returns (r: seq<string>)
    ensures r == AddAll(acc, xs)
  {
    r := acc;
    for k := 0 to |xs|
      invariant r == AddAll(acc, xs[..k])
    {
      assert xs[..k + 1] == xs[..k] + [xs[k]];
      AddAllConcat(acc, xs[..k], [xs[k]]);
      assert [xs[k]][1..] == [];
      if xs[k] !in r {
        r := r + [xs[k]];
      }
    }
    assert xs[..|xs|] == xs;
  }

  /** One step of both scan loops: the neighbours of D[i] (left alone when there are none),
      less the vertices of D. */
  method NeighboursOutside(G: Graph, D: seq<string>, i: nat) returns (local: seq<string>)
    requires i < |D|
    ensures local == Without(GetNeighbors(G, D[i]), D)
  {
    local := GetNeighbors(G, D[i]);
    if |local| == 0 {
      return;
    }
    local := RemoveUsed(local, D);
  }

  /** The scan loop of GetMostConstrainedNeighbour: walks the domain from its last vertex down,
      appending each vertex's neighbours that are not in the domain. */
  method ScanNeighbours(H: Graph, domain: seq<string>) returns (result: seq<string>)
    ensures result == Scan(H, domain, 0)
  {
    result := [];
    var i := |domain|;
    while i > 0
      invariant 0 <= i <= |domain|
      invariant result == Scan(H, domain, i)
    {
      i := i - 1;
      var local := NeighboursOutside(H, domain, i);
      result := result + local;
    }
  }

  /** GetMostConstrainedNeighbour(domain, queryGraph): on a miss the first vertex of the scan
      (or "" when it is empty) is computed and stored under the set of the domain. */
  method GetMostConstrainedNeighbour(domain: seq<string>, H: Graph, caches: MemoCaches) returns (m: string)
    requires caches.PicksOk(H)
    modifies caches
    ensures caches.PicksOk(H) && PickOk(H, SetOf(domain), m)
    ensures caches.inputSubgraphs == old(caches.inputSubgraphs)
    ensures caches.neighboursOfRange == old(caches.neighboursOfRange)
    ensures SetOf(domain) in old(caches.mostConstrainedNeighbours) ==>
              m == old(caches.mostConstrainedNeighbours)[SetOf(domain)]
              && caches.mostConstrainedNeighbours == old(caches.mostConstrainedNeighbours)
    ensures SetOf(domain) !in old(caches.mostConstrainedNeighbours) ==>
              m == FirstOrBlank(Scan(H, domain, 0))
              && caches.mostConstrainedNeighbours == old(caches.mostConstrainedNeighbours)[SetOf(domain) := m]
  {
    var key := SetOf(domain);
    if key !in caches.mostConstrainedNeighbours {
      var result := ScanNeighbours(H, domain);
      if |result| == 0 {
        caches.mostConstrainedNeighbours := caches.mostConstrainedNeighbours[key := ""];
      } else {
        caches.mostConstrainedNeighbours := caches.mostConstrainedNeighbours[key := result[0]];
      }
      ScanPickOk(H, domain);
    }
    m := caches.mostConstrainedNeighbours[key];
  }

  /** The scan loop of ChooseNeighboursOfRange: walks the range from its last vertex down,
      adding each vertex's neighbours that are not in the range to a HashSet. */
  method GatherNeighbours(G: Graph, range: seq<string>) returns (result: seq<string>)
    ensures result == AddAll([], Scan(G, range, 0))
  {
    result := [];
    var i := |range|;
    while i > 0
      invariant 0 <= i <= |range|
      invariant result == AddAll([], Scan(G, range, i))
    {
      i := i - 1;
      var local := NeighboursOutside(G, range, i);
      AddAllConcat([], Scan(G, range, i + 1), local);
      result := AddEach(result, local);
    }
  }

  /** ChooseNeighboursOfRange(used_range, inputGraph): on a miss the HashSet of the scan is
      computed and stored under the set of the range. */
  method ChooseNeighboursOfRange(range: seq<string>, G: Graph, caches: MemoCaches, ghost G0: Graph)
    returns (c: seq<string>)
    requires EdgesSubset(G, G0) && caches.RangesOk(G0, G)
    modifies caches
    ensures caches.RangesOk(G0, G) && CandidatesOk(G0, G, SetOf(range), c)
    ensures caches.inputSubgraphs == old(caches.inputSubgraphs)
    ensures caches.mostConstrainedNeighbours == old(caches.mostConstrainedNeighbours)
    ensures SetOf(range) in old(caches.neighboursOfRange) ==>
              c == old(caches.neighboursOfRange)[SetOf(range)]
              && caches.neighboursOfRange == old(caches.neighboursOfRange)
    ensures SetOf(range) !in old(caches.neighboursOfRange) ==>
              c == AddAll([], Scan(G, range, 0))
              && caches.neighboursOfRange == old(caches.neighboursOfRange)[SetOf(range) := c]
  {
    var key := SetOf(range);
    if key !in caches.neighboursOfRange {
      var result := GatherNeighbours(G, range);
      ScanCandidatesOk(G0, G, range);
      caches.neighboursOfRange := caches.neighboursOfRange[key := result];
    }
    c := caches.neighboursOfRange[key];
  }

  // ---------------------------------------------------------------- candidate pruning

  /** Walking nM in order, some element is mapped by fm, all before it are mapped too, and its
      image is not in nN. */
  ghost predicate MappedMissBeforeGap(nM: seq<string>, nN: seq<string>, fm: map<string, string>)
  {
    exists i :: 0 <= i < |nM| && nM[i] in fm && (forall k :: 0 <= k < i ==> nM[k] in fm) && fm[nM[i]] !in nN
  }

  /** IsNeighbourIncompatible's verdict, over m's query neighbours and n's input neighbours. */
  ghost predicate Incompatible(G: Graph, H: Graph, n: string, m: string, f: PartialMap)
  {
    MappedMissBeforeGap(GetNeighbors(H, m), GetNeighbors(G, n), AsMap(f))
  }

  /** The walk stops at an unmapped element after only compatible mapped ones: no miss. */
  lemma GapBeforeMiss(nM: seq<string>, nN: seq<string>, fm: map<string, string>, i: nat)
    requires i < |nM| && nM[i] !in fm
    requires forall k :: 0 <= k < i ==> nM[k] in fm && fm[nM[k]] in nN
    ensures !MappedMissBeforeGap(nM, nN, fm)
  {
    forall t | 0 <= t < |nM| && nM[t] in fm && (forall k :: 0 <= k < t ==> nM[k] in fm)
      ensures fm[nM[t]] in nN
    {
      assert t < i;
    }
  }

  /** The walk stops at a mapped element whose image is missing after only compatible ones. */
  lemma MissAt(nM: seq<string>, nN: seq<string>, fm: map<string, string>, i: nat)
    requires i < |nM| && nM[i] in fm && fm[nM[i]] !in nN
    requires forall k :: 0 <= k < i ==> nM[k] in fm && fm[nM[k]] in nN
    ensures MappedMissBeforeGap(nM, nN, fm)
  {
  }

  /** A walk that finds every element mapped and compatible finds no miss. */
  lemma NoMiss(nM: seq<string>, nN: seq<string>, fm: map<string, string>)
    requires forall k :: 0 <= k < |nM| ==> nM[k] in fm && fm[nM[k]] in nN
    ensures !MappedMissBeforeGap(nM, nN, fm)
  {
  }

  /** The loop of IsNeighbourIncompatible over m's neighbours nM, against n's neighbours nN. */
  method FindMappedMiss(nM: seq<string>, nN: seq<string>, fm: map<string, string>) returns (b: bool)
    ensures b == MappedMissBeforeGap(nM, nN, fm)
  {
    var i := 0;
    while i < |nM|
      invariant 0 <= i <= |nM|
      invariant forall k :: 0 <= k < i ==> nM[k] in fm && fm[nM[k]] in nN
    {
      if nM[i] !in fm {
        GapBeforeMiss(nM, nN, fm, i);
        return false;
      }
      if fm[nM[i]] !in nN {
        MissAt(nM, nN, fm, i);
        return true;
      }
      i := i + 1;
    }
    NoMiss(nM, nN, fm);
    return false;
  }

  /** IsNeighbourIncompatible(inputGraph, queryGraph, n, m, partialMap): stops with "compatible"
      at the first unmapped neighbour of m and with "incompatible" at the first mapped neighbour
      whose image is not next to n. */
  method IsNeighbourIncompatible(G: Graph, H: Graph, n: string, m: string, f: PartialMap) returns (b: bool)
    ensures b == Incompatible(G, H, n, m, f)
  {
    var neighboursOfN := GetNeighbors(G, n);
    var neighboursOfM := GetNeighbors(H, m);
    b := FindMappedMiss(neighboursOfM, neighboursOfN, AsMap(f));
  }

  /** With every element of nM mapped, the walk finds a miss exactly when some image is missing. */
  lemma AllMappedMiss(nM: seq<string>, nN: seq<string>, fm: map<string, string>)
    requires forall d :: d in nM ==> d in fm
    ensures MappedMissBeforeGap(nM, nN, fm) <==> exists d :: d in nM && fm[d] !in nN
  {
    if exists d :: d in nM && fm[d] !in nN {
      var d :| d in nM && fm[d] !in nN;
      var i :| 0 <= i < |nM| && nM[i] == d;
      assert forall k :: 0 <= k < i ==> nM[k] in fm;
    }
  }

  /** When every query neighbour of m is already mapped, m := n is rejected exactly when some
      such neighbour's image is not a neighbour of n. */
  lemma IncompatibleWhenAllMapped(G: Graph, H: Graph, n: string, m: string, f: PartialMap)
    requires forall d :: d in GetNeighbors(H, m) ==> d in AsMap(f)
    ensures Incompatible(G, H, n, m, f) <==>
              exists d :: d in GetNeighbors(H, m) && AsMap(f)[d] !in GetNeighbors(G, n)
  {
    AllMappedMiss(GetNeighbors(H, m), GetNeighbors(G, n), AsMap(f));
  }

  /** CanSupport's verdict: deg_G(g) >= deg_H(h), and some neighbour of g has at least the
      degree of some neighbour of h. */
  ghost predicate Supports(H: Graph, h: string, G: Graph, g: string)
  {
    && Degree(G, g) >= Degree(H, h)
    && exists hp, gp :: hp in GetNeighbors(H, h) && gp in GetNeighbors(G, g) && Degree(G, gp) >= Degree(H, hp)
  }

  /** Some neighbour listed in gN has at least the degree of some neighbour listed in hN. */
  ghost predicate FittingPair(H: Graph, hN: seq<string>, G: Graph, gN: seq<string>)
  {
    exists a, c :: 0 <= a < |hN| && 0 <= c < |gN| && Degree(G, gN[c]) >= Degree(H, hN[a])
  }

  /** A fitting pair by positions is a fitting pair by members. */
  lemma FittingPairMembers(H: Graph, hN: seq<string>, G: Graph, gN: seq<string>)
    ensures FittingPair(H, hN, G, gN) <==>
              exists hp, gp :: hp in hN && gp in gN && Degree(G, gp) >= Degree(H, hp)
  {
    if exists hp, gp :: hp in hN && gp in gN && Degree(G, gp) >= Degree(H, hp) {
      var hp, gp :| hp in hN && gp in gN && Degree(G, gp) >= Degree(H, hp);
      var a :| 0 <= a < |hN| && hN[a] == hp;
      var c :| 0 <= c < |gN| && gN[c] == gp;
    }
    if FittingPair(H, hN, G, gN) {
      var a, c :| 0 <= a < |hN| && 0 <= c < |gN| && Degree(G, gN[c]) >= Degree(H, hN[a]);
      assert hN[a] in hN && gN[c] in gN;
    }
  }

  /** CanSupport's nested loops, both lists scanned from the back. */
  method FindFittingPair(H: Graph, hN: seq<string>, G: Graph, gN: seq<string>) returns (b: bool)
    ensures b == FittingPair(H, hN, G, gN)
  {
    var i := |hN| - 1;
    while i >= 0
      invariant -1 <= i < |hN|
      invariant forall a, c :: i < a < |hN| && 0 <= c < |gN| ==> Degree(G, gN[c]) < Degree(H, hN[a])
    {
      var j := |gN| - 1;
      while j >= 0
        invariant -1 <= j < |gN|
        invariant forall c :: j < c < |gN| ==> Degree(G, gN[c]) < Degree(H, hN[i])
      {
        if Degree(G, gN[j]) >= Degree(H, hN[i]) {
          return true;
        }
        j := j - 1;
      }
      i := i - 1;
    }
    return false;
  }

  /** CanSupport(queryGraph, h, inputGraph, g): the degree test, then the search for a pair of
      neighbours whose degrees fit. */
  method CanSupport(H: Graph, h: string, G: Graph, g: string) returns (b: bool)
    ensures b == Supports(H, h, G, g)
  {
    FittingPairMembers(H, GetNeighbors(H, h), G, GetNeighbors(G, g));
    if Degree(G, g) < Degree(H, h) {
      return false;
    }
    var gNeighbors := GetNeighbors(G, g);
    var hNeighbors := GetNeighbors(H, h);
    b := FindFittingPair(H, hNeighbors, G, gNeighbors);
  }

  /** The largest degree along s. */
  function MaxDegree(G: Graph, s: seq<string>): (r: nat)
    requires s != []
    ensures forall x :: x in s ==> Degree(G, x) <= r
    ensures exists x :: x in s && Degree(G, x) == r
  {
    if |s| == 1 then Degree(G, s[0])
    else
      var rest := MaxDegree(G, s[1..]);
      assert forall x :: x in s ==> x == s[0] || x in s[1..];
      if Degree(G, s[0]) >= rest then Degree(G, s[0]) else rest
  }

  /** The smallest degree along s. */
  function MinDegree(G: Graph, s: seq<string>): (r: nat)
    requires s != []
    ensures forall x :: x in s ==> Degree(G, x) >= r
    ensures exists x :: x in s && Degree(G, x) == r
  {
    if |s| == 1 then Degree(G, s[0])
    else
      var rest := MinDegree(G, s[1..]);
      assert forall x :: x in s ==> x == s[0] || x in s[1..];
      if Degree(G, s[0]) <= rest then Degree(G, s[0]) else rest
  }

  /** CanSupport compares extremes: g supports h exactly when g's degree is at least h's, both
      have neighbours, and the best-connected neighbour of g is at least as connected as the
      least-connected neighbour of h. In particular a vertex without neighbours is never
      supported and never supports. */
  lemma SupportsByExtremes(H: Graph, h: string, G: Graph, g: string)
    ensures Supports(H, h, G, g) <==>
              && Degree(G, g) >= Degree(H, h)
              && GetNeighbors(H, h) != [] && GetNeighbors(G, g) != []
              && MaxDegree(G, GetNeighbors(G, g)) >= MinDegree(H, GetNeighbors(H, h))
  {
    var hN, gN := GetNeighbors(H, h), GetNeighbors(G, g);
    if Supports(H, h, G, g) {
      var hp, gp :| hp in hN && gp in gN && Degree(G, gp) >= Degree(H, hp);
      assert MaxDegree(G, gN) >= Degree(G, gp);
      assert MinDegree(H, hN) <= Degree(H, hp);
    }
    if Degree(G, g) >= Degree(H, h) && hN != [] && gN != [] && MaxDegree(G, gN) >= MinDegree(H, hN) {
      var hp :| hp in hN && Degree(H, hp) == MinDegree(H, hN);
      var gp :| gp in gN && Degree(G, gp) == MaxDegree(G, gN);
      assert Degree(G, gp) >= Degree(H, hp);
    }
  }

  // ---------------------------------------------------------------- the base case

  /** Every query edge has both ends in the domain of f. */
  ghost predicate AllMapped(H: Graph, f: PartialMap)
  {
    forall e :: e in H.edges ==> e.source in AsMap(f) && e.target in AsMap(f)
  }

  /** The image of a query edge under f. */
  function ImageEdge(f: PartialMap, e: Edge): Edge
    requires e.source in AsMap(f) && e.target in AsMap(f)
  {
    Edge(AsMap(f)[e.source], AsMap(f)[e.target])
  }

  /** MapOnInputSubGraph: the images of the edges es added one by one to a graph that allows
      parallel edges. */
  function ImageGraph(f: PartialMap, es: seq<Edge>): (r: Graph)
    requires forall e :: e in es ==> e.source in AsMap(f) && e.target in AsMap(f)
    ensures r.allowParallelEdges && |r.edges| == |es|
    ensures forall k :: 0 <= k < |es| ==> r.edges[k] == ImageEdge(f, es[k])
    ensures Distinct(r.vertices)
  {
    if es == [] then EmptyGraph(true)
    else
      var p := es[..|es| - 1];
      assert forall e :: e in p ==> e in es;
      AddVerticesAndEdge(ImageGraph(f, p), ImageEdge(f, es[|es| - 1]))
  }

  /** The vertices of the image graph are exactly the ends of the image edges. */
  lemma {:induction false} ImageGraphVertices(f: PartialMap, es: seq<Edge>)
    requires forall e :: e in es ==> e.source in AsMap(f) && e.target in AsMap(f)
    ensures VerticesAreEnds(ImageGraph(f, es))
  {
    if es != [] {
      var p := es[..|es| - 1];
      assert forall e :: e in p ==> e in es;
      ImageGraphVertices(f, p);
      AddEdgeKeepsEnds(ImageGraph(f, p), ImageEdge(f, es[|es| - 1]));
    }
  }

  /** img is the image of the query edges under f: edge k of img is the image of query edge k,
      parallel edges are kept, and the vertices are exactly the ends of those images. */
  ghost predicate ImageOf(H: Graph, f: PartialMap, img: Graph)
  {
    && AllMapped(H, f)
    && img.allowParallelEdges && |img.edges| == |H.edges|
    && (forall k :: 0 <= k < |H.edges| ==> img.edges[k] == ImageEdge(f, H.edges[k]))
    && VerticesAreEnds(img)
  }

  /** ImageGraph builds the image of the query edges. */
  lemma ImageGraphIsImage(H: Graph, f: PartialMap)
    requires AllMapped(H, f)
    ensures ImageOf(H, f, ImageGraph(f, H.edges))
  {
    ImageGraphVertices(f, H.edges);
  }

  /** The loop over the query edges that fills MapOnInputSubGraph. */
  method BuildMapOnInputSubGraph(f: PartialMap, H: Graph) returns (img: Graph)
    requires AllMapped(H, f)
    ensures ImageOf(H, f, img)
  {
    img := EmptyGraph(true);
    for k := 0 to |H.edges|
      invariant forall e :: e in H.edges[..k] ==> e in H.edges
      invariant img == ImageGraph(f, H.edges[..k])
    {
      var qEdge := H.edges[k];
      assert H.edges[..k + 1][..k] == H.edges[..k];
      img := AddVerticesAndEdge(img, ImageEdge(f, qEdge));
    }
    assert H.edges[..|H.edges|] == H.edges;
    ImageGraphIsImage(H, f);
  }

  /** A well-formed graph joins two vertices by at most one edge. */
  lemma UniqueEdge(G: Graph, e1: Edge, e2: Edge)
    requires WellFormed(G) && e1 in G.edges && e2 in G.edges && Joins(e2, e1.source, e1.target)
    ensures e1 == e2
  {
    var i :| 0 <= i < |G.edges| && G.edges[i] == e1;
    var j :| 0 <= j < |G.edges| && G.edges[j] == e2;
    assert Joins(e1, e2.source, e2.target);
  }

  /** Every edge of G between u and v is in sub. */
  ghost predicate Covered(G: Graph, sub: Graph, u: string, v: string)
  {
    forall e :: e in G.edges && Joins(e, u, v) ==> e in sub.edges
  }

  /** Adding the edge TryGetEdge found between u and v covers the pair, and keeps every pair
      covered so far covered. */
  lemma AddFoundEdge(G: Graph, sub: Graph, u: string, v: string, e: Edge)
    requires WellFormed(G) && !sub.allowParallelEdges
    requires forall x :: x in sub.edges ==> x in G.edges
    requires e in G.edges && Joins(e, u, v)
    ensures var r := AddVerticesAndEdge(sub, e);
      && (forall x :: x in sub.edges ==> x in r.edges)
      && (forall x :: x in r.edges ==> x in sub.edges || x == e)
      && Covered(G, r, u, v)
  {
    var r := AddVerticesAndEdge(sub, e);
    if r.edges == sub.edges {
      var x :| x in sub.edges && Joins(x, e.source, e.target);
      UniqueEdge(G, e, x);
    }
    forall y | y in G.edges && Joins(y, u, v) ensures y in r.edges {
      UniqueEdge(G, e, y);
    }
  }

  /** The inner loop of the InputSubGraph construction: for each later vertex key[j], the edge
      TryGetEdge finds between key[i] and key[j], if any, is added. */
  method CoverRow(key: seq<string>, i: nat, G: Graph, sub0: Graph) returns (sub: Graph)
    requires WellFormed(G) && i < |key| && !sub0.allowParallelEdges && NoParallel(sub0.edges)
    requires forall e :: e in sub0.edges ==> e in G.edges && e.source in key && e.target in key
    ensures !sub.allowParallelEdges && NoParallel(sub.edges)
    ensures forall e :: e in sub.edges ==> e in G.edges && e.source in key && e.target in key
    ensures forall e :: e in sub0.edges ==> e in sub.edges
    ensures forall q :: i < q < |key| ==> Covered(G, sub, key[i], key[q])
  {
    sub := sub0;
    for j := i + 1 to |key|
      invariant !sub.allowParallelEdges && NoParallel(sub.edges)
      invariant forall e :: e in sub.edges ==> e in G.edges && e.source in key && e.target in key
      invariant forall e :: e in sub0.edges ==> e in sub.edges
      invariant forall q :: i < q < j ==> Covered(G, sub, key[i], key[q])
    {
      var edge := TryGetEdge(G, key[i], key[j]);
      if edge.Some? {
        AddFoundEdge(G, sub, key[i], key[j], edge.value);
        AddEdgeKeepsNoParallel(sub, edge.value);
        sub := AddVerticesAndEdge(sub, edge.value);
      } else {
        assert Covered(G, sub, key[i], key[j]);
      }
    }
  }

  /** The nested loops over pairs of mapped vertices that build InputSubGraph from the edges
      TryGetEdge finds. */
  method BuildInputSubgraph(key: seq<string>, G: Graph) returns (sub: Graph)
    requires WellFormed(G)
    ensures !sub.allowParallelEdges && NoParallel(sub.edges)
    ensures forall e :: e in sub.edges <==> e in G.edges && e.source in key && e.target in key
  {
    sub := EmptyGraph(false);
    for i := 0 to |key|
      invariant !sub.allowParallelEdges && NoParallel(sub.edges)
      invariant forall e :: e in sub.edges ==> e in G.edges && e.source in key && e.target in key
      invariant forall p, q :: 0 <= p < i && p < q < |key| ==> Covered(G, sub, key[p], key[q])
    {
      ghost var before := sub;
      sub := CoverRow(key, i, G, sub);
      forall p, q | 0 <= p < i && p < q < |key| ensures Covered(G, sub, key[p], key[q]) {
        assert Covered(G, before, key[p], key[q]);
      }
    }
    forall e | e in G.edges && e.source in key && e.target in key ensures e in sub.edges {
      var p :| 0 <= p < |key| && key[p] == e.source;
      var q :| 0 <= q < |key| && key[q] == e.target;
      if p < q {
        assert Covered(G, sub, key[p], key[q]);
      } else {
        assert Covered(G, sub, key[q], key[p]);
      }
    }
  }

  // ---------------------------------------------------------------- what the search must find

  /** phi embeds the query graph H in G: it is defined on exactly the query vertices, sends no
      two of them to the same input vertex, involves no blank name, and sends the two ends of
      every query edge to two adjacent input vertices. */
  ghost predicate Embeds(H: Graph, G: Graph, phi: map<string, string>)
  {
    && (forall v :: v in phi <==> v in H.vertices)
    && (forall a, b :: a in phi && b in phi && a != b ==> phi[a] != phi[b])
    && (forall v :: v in phi ==> !IsNullOrWhiteSpace(v) && !IsNullOrWhiteSpace(phi[v]))
    && (forall e :: e in H.edges ==> e.source in phi && e.target in phi && Adjacent(G, phi[e.source], phi[e.target]))
  }

  /** Every entry of f is an entry of phi. */
  ghost predicate Agrees(f: PartialMap, phi: map<string, string>)
  {
    forall k :: 0 <= k < |f| ==> f[k].0 in phi && phi[f[k].0] == f[k].1
  }

  /** A query edge leaves every non-empty proper part of the query vertices. */
  ghost predicate Connected(H: Graph)
  {
    forall S {:trigger NoFrontier(H, S)} :: S != {} && S < SetOf(H.vertices) ==> !NoFrontier(H, S)
  }

  /** Some mapping of xs denotes phi. */
  ghost predicate Represented(phi: map<string, string>, xs: seq<Mapping>)
  {
    exists y :: y in xs && AsMap(y.fn) == phi
  }

  /** xs holds a mapping for every embedding of H in G that agrees with f. */
  ghost predicate FindsAll(H: Graph, G: Graph, f: PartialMap, xs: seq<Mapping>)
  {
    forall phi :: Embeds(H, G, phi) && Agrees(f, phi) ==> Represented(phi, xs)
  }

  /** An embedding sends a query neighbour of u to an input neighbour of u's image. */
  lemma EmbedsNeighbour(H: Graph, G: Graph, phi: map<string, string>, u: string, w: string)
    requires WellFormed(H) && Embeds(H, G, phi) && u in phi && w in GetNeighbors(H, u)
    ensures w in phi && phi[w] in GetNeighbors(G, phi[u])
  {
    NeighbourJoined(H, u, w);
    NeighbourIsVertex(H, u, w);
    var e :| e in H.edges && Joins(e, u, w);
    assert Adjacent(G, phi[e.source], phi[e.target]);
    var e' :| e' in G.edges && Joins(e', phi[e.source], phi[e.target]);
    assert Adjacent(G, phi[u], phi[w]) by { assert Joins(e', phi[u], phi[w]); }
    JoinedNeighbour(G, phi[u], phi[w]);
  }

  /** A map that agrees with phi and has all of phi's domain as keys denotes phi. */
  lemma AgreesWhole(f: PartialMap, phi: map<string, string>)
    requires KeysDistinct(f) && Agrees(f, phi) && forall v :: v in phi ==> v in Keys(f)
    ensures AsMap(f) == phi
  {
    AgreesAsMap(f, phi);
    assert AsMap(f).Keys == phi.Keys;
  }

  /** With distinct keys, the function f denotes is phi on its domain. */
  lemma AgreesAsMap(f: PartialMap, phi: map<string, string>)
    requires KeysDistinct(f) && Agrees(f, phi)
    ensures forall d :: d in AsMap(f) ==> d in phi && AsMap(f)[d] == phi[d]
  {
    forall d | d in AsMap(f) ensures d in phi && AsMap(f)[d] == phi[d] {
      assert d in SetOf(Keys(f));
      var k :| 0 <= k < |f| && Keys(f)[k] == d;
      AsMapAt(f, k);
    }
  }

  /** A map with distinct keys that agrees with an embedding is injective. */
  lemma AgreesInjective(H: Graph, G: Graph, f: PartialMap, phi: map<string, string>)
    requires KeysDistinct(f) && Agrees(f, phi) && Embeds(H, G, phi)
    ensures Injective(f)
  {
    forall i, j | 0 <= i < j < |f| ensures Values(f)[i] != Values(f)[j] {
      assert Keys(f)[i] != Keys(f)[j];
    }
  }

  /** A complete map that agrees with an embedding denotes exactly that embedding, so the base
      case's one mapping is every embedding the search can still find. */
  lemma CompleteFindsAll(H: Graph, G: Graph, f: PartialMap, x: Mapping)
    requires WellFormed(H) && KeysDistinct(f) && (forall k :: k in Keys(f) ==> k in H.vertices)
    requires |f| == |H.vertices| && x.fn == f
    ensures FindsAll(H, G, f, [x])
  {
    DistinctWithin(Keys(f), H.vertices);
    forall phi | Embeds(H, G, phi) && Agrees(f, phi) ensures Represented(phi, [x]) {
      AgreesWhole(f, phi);
      assert x in [x];
    }
  }

  /** Once some but not all query vertices are mapped, a connected query graph has a frontier,
      so the stored pick is a frontier vertex, and it is blank only if the query graph has a
      blank vertex. */
  lemma PickInFrontier(H: Graph, G: Graph, f: PartialMap, m: string)
    requires WellFormed(H) && KeysDistinct(f) && (forall k :: k in Keys(f) ==> k in H.vertices)
    requires |f| < |H.vertices| && PickOk(H, SetOf(Keys(f)), m)
    ensures f != [] && Connected(H) ==> InFrontier(H, SetOf(Keys(f)), m)
    ensures f != [] && Connected(H) && IsNullOrWhiteSpace(m) ==> forall phi :: !Embeds(H, G, phi)
  {
    if f != [] && Connected(H) {
      var S := SetOf(Keys(f));
      ProperDomain(H, f);
      assert !NoFrontier(H, S);
      var d :| d in S && m in GetNeighbors(H, d);
      NeighbourIsVertex(H, d, m);
      VertexNotBlank(H, G, m);
    }
  }

  /** A non-empty map with fewer distinct keys than H has vertices covers a proper part of H. */
  lemma ProperDomain(H: Graph, f: PartialMap)
    requires WellFormed(H) && KeysDistinct(f) && (forall k :: k in Keys(f) ==> k in H.vertices)
    requires 0 < |f| < |H.vertices|
    ensures SetOf(Keys(f)) != {} && SetOf(Keys(f)) < SetOf(H.vertices)
  {
    var S := SetOf(Keys(f));
    assert Keys(f)[0] in S;
    SetOfCard(Keys(f));
    SetOfCard(H.vertices);
    assert S != SetOf(H.vertices);
  }

  /** Every embedding maps every query vertex, so a blank query vertex admits none. */
  lemma VertexNotBlank(H: Graph, G: Graph, m: string)
    requires m in H.vertices
    ensures IsNullOrWhiteSpace(m) ==> forall phi :: !Embeds(H, G, phi)
  {
  }

  /** Adding an entry for a fresh key keeps the keys distinct. */
  lemma KeysDistinctExtend(f: PartialMap, m: string, n: string)
    requires KeysDistinct(f) && m !in SetOf(Keys(f))
    ensures KeysDistinct(f + [(m, n)])
  {
    assert Keys(f + [(m, n)]) == Keys(f) + [m];
  }

  /** A key of f is mapped by phi to a value of f. */
  lemma AgreedKey(f: PartialMap, phi: map<string, string>, d: string)
    requires Agrees(f, phi) && d in SetOf(Keys(f))
    ensures d in phi && phi[d] in SetOf(Values(f))
  {
    var k :| 0 <= k < |f| && Keys(f)[k] == d;
    assert Values(f)[k] == f[k].1;
  }

  /** Adding the entry phi gives m keeps the map in agreement with phi. */
  lemma AgreesExtend(f: PartialMap, m: string, phi: map<string, string>)
    requires Agrees(f, phi) && m in phi
    ensures Agrees(f + [(m, phi[m])], phi)
  {
    var f' := f + [(m, phi[m])];
    forall k | 0 <= k < |f'| ensures f'[k].0 in phi && phi[f'[k].0] == f'[k].1 {
      if k < |f| { assert f'[k] == f[k]; }
    }
  }

  /** The image of an unmapped query vertex under an embedding that agrees with f is not a
      value of f. */
  lemma ImageIsFresh(H: Graph, G: Graph, f: PartialMap, m: string, phi: map<string, string>)
    requires Embeds(H, G, phi) && Agrees(f, phi) && m in phi && m !in SetOf(Keys(f))
    ensures phi[m] !in SetOf(Values(f))
  {
    forall j | 0 <= j < |f| ensures Values(f)[j] != phi[m] { assert Keys(f)[j] != m; }
  }

  /** Under an embedding that agrees with f, every mapped query neighbour of m has its image
      next to the image of m: the compatibility test lets the image of m through. */
  lemma EmbeddingCompatible(H: Graph, G: Graph, f: PartialMap, m: string, phi: map<string, string>)
    requires WellFormed(H) && Embeds(H, G, phi) && KeysDistinct(f) && Agrees(f, phi) && m in phi
    ensures !Incompatible(G, H, phi[m], m, f)
  {
    var nM, nN, fm := GetNeighbors(H, m), GetNeighbors(G, phi[m]), AsMap(f);
    AgreesAsMap(f, phi);
    forall i | 0 <= i < |nM| && nM[i] in fm ensures fm[nM[i]] in nN {
      EmbedsNeighbour(H, G, phi, m, nM[i]);
    }
  }

  /** The image of the frontier vertex m under an embedding that agrees with f is a
      candidate, passes the compatibility test, and extends f in agreement with it. */
  lemma CandidateCovers(H: Graph, G0: Graph, G: Graph, f: PartialMap, m: string, c: seq<string>,
                        phi: map<string, string>)
    requires WellFormed(H) && Embeds(H, G, phi) && KeysDistinct(f) && Agrees(f, phi)
    requires InFrontier(H, SetOf(Keys(f)), m) && CandidatesOk(G0, G, SetOf(Values(f)), c)
    ensures m in phi && phi[m] in c && !Incompatible(G, H, phi[m], m, f)
    ensures Agrees(f + [(m, phi[m])], phi)
  {
    var d :| d in SetOf(Keys(f)) && m in GetNeighbors(H, d);
    AgreedKey(f, phi, d);
    EmbedsNeighbour(H, G, phi, d, m);
    ImageIsFresh(H, G, f, m, phi);
    EmbeddingCompatible(H, G, f, m, phi);
    AgreesExtend(f, m, phi);
  }

  /** The first |batches| candidates of ns are searched, batches[t] being what ns[t]
      yielded. */
  ghost predicate Searched(H: Graph, G0: Graph, G: Graph, f: PartialMap, m: string, ns: seq<string>,
                           batches: seq<seq<Mapping>>)
  {
    |batches| <= |ns| && forall t :: 0 <= t < |batches| ==> BatchOk(H, G0, G, f, m, ns[t], batches[t])
  }

  /** b is what candidate n yielded: results of the search from f extended by m -> n; nothing
      when n fails the compatibility test; and, on a connected query graph, a mapping for
      every embedding that agrees with the extended map. */
  ghost predicate BatchOk(H: Graph, G0: Graph, G: Graph, f: PartialMap, m: string, n: string, b: seq<Mapping>)
  {
    && AllExtend(H, G0, G, f + [(m, n)], b)
    && (Incompatible(G, H, n, m, f) ==> b == [])
    && (Connected(H) && !Incompatible(G, H, n, m, f) ==> FindsAll(H, G, f + [(m, n)], b))
  }

  /** isos is the batches merged as the candidate loop merges them: every mapping of isos
      comes from a batch; every injective mapping of a batch has an equal in isos; the first
      non-empty batch is a prefix of isos, so isos is empty only when every batch is. */
  ghost predicate Merged(isos: seq<Mapping>, batches: seq<seq<Mapping>>)
  {
    && (forall x :: x in isos ==> exists t :: 0 <= t < |batches| && x in batches[t])
    && (forall t, x :: 0 <= t < |batches| && x in batches[t] && Injective(x.fn) ==>
          exists y :: y in isos && SameFunction(y, x))
    && (forall t :: 0 <= t < |batches| && batches[t] != [] && (forall s :: 0 <= s < t ==> batches[s] == []) ==>
          batches[t] <= isos)
    && (isos == [] <==> forall t :: 0 <= t < |batches| ==> batches[t] == [])
  }

  /** A batch with the three properties is what its candidate yielded. */
  lemma BatchOkIntro(H: Graph, G0: Graph, G: Graph, f: PartialMap, m: string, n: string, b: seq<Mapping>)
    requires AllExtend(H, G0, G, f + [(m, n)], b)
    requires Incompatible(G, H, n, m, f) ==> b == []
    requires Connected(H) && !Incompatible(G, H, n, m, f) ==> FindsAll(H, G, f + [(m, n)], b)
    ensures BatchOk(H, G0, G, f, m, n, b)
  {
  }

  /** The next candidate, n = ns[|batches|], and its batch. */
  lemma SearchedStep(H: Graph, G0: Graph, G: Graph, f: PartialMap, m: string, ns: seq<string>,
                     batches: seq<seq<Mapping>>, n: string, b: seq<Mapping>)
    requires Searched(H, G0, G, f, m, ns, batches) && |batches| < |ns| && ns[|batches|] == n
    requires BatchOk(H, G0, G, f, m, n, b)
    ensures Searched(H, G0, G, f, m, ns, batches + [b])
  {
    var bs' := batches + [b];
    forall t | 0 <= t < |bs'| ensures BatchOk(H, G0, G, f, m, ns[t], bs'[t]) {
      if t < |batches| {
        assert bs'[t] == batches[t];
      } else {
        assert bs'[t] == b;
      }
    }
  }

  /** The first batch, taken whole into an empty list. */
  lemma MergedFirst(batches: seq<seq<Mapping>>, b: seq<Mapping>)
    requires Merged([], batches)
    ensures Merged(b, batches + [b])
  {
    var bs' := batches + [b];
    assert forall t :: 0 <= t < |batches| ==> bs'[t] == batches[t] == [];
    assert bs'[|batches|] == b;
    forall x | x in b ensures SameFunction(x, x) { }
  }

  /** A later batch merged into a non-empty list that isos' extends. */
  lemma MergedMore(isos: seq<Mapping>, batches: seq<seq<Mapping>>, b: seq<Mapping>, isos': seq<Mapping>)
    requires Merged(isos, batches) && isos != [] && isos <= isos'
    requires forall x :: x in isos' ==> x in isos || x in b
    requires forall x :: x in b && Injective(x.fn) ==> exists y :: y in isos' && SameFunction(y, x)
    ensures Merged(isos', batches + [b])
  {
    var bs' := batches + [b];
    forall x | x in isos' ensures exists t :: 0 <= t < |bs'| && x in bs'[t] {
      if x in isos {
        var t :| 0 <= t < |batches| && x in batches[t];
        assert bs'[t] == batches[t];
      } else {
        assert bs'[|batches|] == b;
      }
    }
    forall t: int, x: Mapping | 0 <= t < |bs'| && x in bs'[t] && Injective(x.fn) ensures exists y :: y in isos' && SameFunction(y, x) {
      if t < |batches| {
        assert bs'[t] == batches[t];
        var y :| y in isos && SameFunction(y, x);
        assert y in isos';
      }
    }
    var t0 :| 0 <= t0 < |batches| && batches[t0] != [];
    assert bs'[t0] == batches[t0];
    forall t | 0 <= t < |bs'| && bs'[t] != [] && (forall s :: 0 <= s < t ==> bs'[s] == []) ensures bs'[t] <= isos' {
      if t < |batches| {
        assert bs'[t] == batches[t];
        forall s | 0 <= s < t ensures batches[s] == [] { assert bs'[s] == batches[s]; }
      } else {
        assert false;
      }
    }
  }

  /** When every candidate's batch holds a mapping for each embedding that agrees with its
      extended map, the merged list holds a mapping for every embedding that agrees with f. */
  lemma CandidatesFindAll(H: Graph, G0: Graph, G: Graph, f: PartialMap, m: string, c: seq<string>,
                          isos: seq<Mapping>, batches: seq<seq<Mapping>>)
    requires WellFormed(H) && KeysDistinct(f) && InFrontier(H, SetOf(Keys(f)), m) && Connected(H)
    requires CandidatesOk(G0, G, SetOf(Values(f)), c)
    requires Searched(H, G0, G, f, m, c, batches) && |batches| == |c| && Merged(isos, batches)
    ensures FindsAll(H, G, f, isos)
  {
    forall phi | Embeds(H, G, phi) && Agrees(f, phi) ensures Represented(phi, isos) {
      CandidateCovers(H, G0, G, f, m, c, phi);
      var t :| 0 <= t < |c| && c[t] == phi[m];
      var f' := f + [(m, c[t])];
      KeysDistinctExtend(f, m, c[t]);
      AgreesInjective(H, G, f', phi);
      assert BatchOk(H, G0, G, f, m, c[t], batches[t]);
      assert FindsAll(H, G, f', batches[t]);
      var x :| x in batches[t] && AsMap(x.fn) == phi;
      ExtendsInjective(H, G0, G, f', batches[t]);
      var y :| y in isos && SameFunction(y, x);
    }
  }

  // ---------------------------------------------------------------- the recursive search

  /** r assigns every query vertex exactly once and begins with f. */
  ghost predicate Completes(H: Graph, f: PartialMap, r: PartialMap)
  {
    && |r| == |H.vertices| && |f| <= |r| && r[..|f|] == f
    && KeysDistinct(r) && (forall k :: k in Keys(r) ==> k in H.vertices)
  }

  /** Entry k of r was added by one step of the search from r[..k]: its query vertex is a
      non-blank vertex next to an earlier key, its input vertex is a fresh neighbour in G0 of
      an earlier value, and the pair passed the compatibility test on G. */
  ghost predicate StepOk(H: Graph, G0: Graph, G: Graph, r: PartialMap, k: nat)
    requires k < |r|
  {
    && !IsNullOrWhiteSpace(r[k].0)
    && InFrontier(H, SetOf(Keys(r[..k])), r[k].0)
    && r[k].1 !in Values(r[..k])
    && (exists y :: y in Values(r[..k]) && r[k].1 in GetNeighbors(G0, y))
    && !Incompatible(G, H, r[k].1, r[k].0, r[..k])
  }

  /** Every entry of r from index start on was added by a search step. */
  ghost predicate GrowsFrom(H: Graph, G0: Graph, G: Graph, r: PartialMap, start: nat)
  {
    forall k :: start <= k < |r| ==> StepOk(H, G0, G, r, k)
  }

  /** A result of the search started from f: a completion of f grown step by step, with the
      image of every query edge in MapOnInputSubGraph and the edges among its values in
      InputSubGraph. */
  ghost predicate Extends(H: Graph, G0: Graph, G: Graph, f: PartialMap, x: Mapping)
  {
    && Completes(H, f, x.fn)
    && GrowsFrom(H, G0, G, x.fn, |f|)
    && ImageOf(H, x.fn, x.mapOnInputSubGraph)
    && SubgraphOk(G0, G, SetOf(Values(x.fn)), x.inputSubGraph)
  }

  /** Keys of a prefix are a prefix of the keys, and likewise for values. */
  lemma PrefixKeysValues(r: PartialMap, k: nat)
    requires k <= |r|
    ensures Keys(r[..k]) == Keys(r)[..k] && Values(r[..k]) == Values(r)[..k]
  {
  }

  /** A total map over the query vertices: every query vertex is a key. */
  lemma {:induction false} TotalMap(H: Graph, f: PartialMap, r: PartialMap)
    requires WellFormed(H) && Completes(H, f, r)
    ensures forall v :: v in H.vertices ==> v in AsMap(r)
    ensures AllMapped(H, r)
  {
    DistinctWithin(Keys(r), H.vertices);
    forall v | v in H.vertices ensures v in AsMap(r) {
      assert v in SetOf(Keys(r));
    }
  }

  /** Steps only add fresh values: grown from an injective start, the result is injective. */
  lemma {:induction false} GrowsInjective(H: Graph, G0: Graph, G: Graph, f: PartialMap, r: PartialMap)
    requires |f| <= |r| && r[..|f|] == f && GrowsFrom(H, G0, G, r, |f|) && Injective(f)
    ensures Injective(r)
  {
    forall i, j | 0 <= i < j < |r| ensures Values(r)[i] != Values(r)[j] {
      if j < |f| {
        assert Values(f)[i] != Values(f)[j];
        assert f[i] == r[i] && f[j] == r[j];
      } else {
        assert StepOk(H, G0, G, r, j);
        PrefixKeysValues(r, j);
        assert Values(r[..j])[i] == r[i].1;
      }
    }
  }

  /** A completion of f + [p] is a completion of f. */
  lemma CompletesPrefix(H: Graph, f: PartialMap, p: (string, string), r: PartialMap)
    requires Completes(H, f + [p], r)
    ensures Completes(H, f, r) && r[|f|] == p
  {
    assert r[..|f|] == r[..|f| + 1][..|f|];
    assert r[|f|] == r[..|f| + 1][|f|];
  }

  /** One more legal step at the front of a grown suffix. */
  lemma GrowsFromStep(H: Graph, G0: Graph, G: Graph, r: PartialMap, start: nat)
    requires start < |r| && StepOk(H, G0, G, r, start) && GrowsFrom(H, G0, G, r, start + 1)
    ensures GrowsFrom(H, G0, G, r, start)
  {
  }

  /** A result of the search from f + [(m, n)] is a result of the search from f, when (m, n)
      was a legal step from f. */
  lemma ExtendsLift(H: Graph, G0: Graph, G: Graph, f: PartialMap, m: string, n: string, x: Mapping)
    requires Extends(H, G0, G, f + [(m, n)], x)
    requires !IsNullOrWhiteSpace(m) && InFrontier(H, SetOf(Keys(f)), m)
    requires n !in Values(f) && exists y :: y in Values(f) && n in GetNeighbors(G0, y)
    requires !Incompatible(G, H, n, m, f)
    ensures Extends(H, G0, G, f, x)
  {
    CompletesPrefix(H, f, (m, n), x.fn);
    assert StepOk(H, G0, G, x.fn, |f|);
    GrowsFromStep(H, G0, G, x.fn, |f|);
  }

  /** Every result of the search from f + [(m, n)] is a result of the search from f. */
  lemma LiftAll(H: Graph, G0: Graph, G: Graph, f: PartialMap, m: string, n: string, xs: seq<Mapping>)
    requires forall x :: x in xs ==> Extends(H, G0, G, f + [(m, n)], x)
    requires !IsNullOrWhiteSpace(m) && InFrontier(H, SetOf(Keys(f)), m)
    requires n !in Values(f) && exists y :: y in Values(f) && n in GetNeighbors(G0, y)
    requires !Incompatible(G, H, n, m, f)
    ensures forall x :: x in xs ==> Extends(H, G0, G, f, x)
  {
    forall x | x in xs ensures Extends(H, G0, G, f, x) {
      ExtendsLift(H, G0, G, f, m, n, x);
    }
  }

  /** A query vertex on the frontier of a prefix's keys is next to the query vertex of an
      entry of that prefix. */
  lemma FrontierNeighbour(H: Graph, r: PartialMap, k: nat) returns (j: nat)
    requires k < |r| && InFrontier(H, SetOf(Keys(r[..k])), r[k].0)
    ensures j < k && r[k].0 in GetNeighbors(H, r[j].0)
  {
    var d :| d in SetOf(Keys(r[..k])) && r[k].0 in GetNeighbors(H, d);
    j := KeyIndex(r, k, d);
  }

  /** A key of a prefix is the key of one of its entries. */
  lemma KeyIndex(r: PartialMap, k: nat, d: string) returns (j: nat)
    requires k <= |r| && d in SetOf(Keys(r[..k]))
    ensures j < k && r[j].0 == d
  {
    var ks := Keys(r[..k]);
    j :| 0 <= j < |ks| && ks[j] == d;
    assert ks[j] == r[..k][j].0 == r[j].0;
  }

  /** Grown along neighbours from its first entry, a map keeps every query vertex on the
      side of S its first vertex is on, when no neighbour crosses out of S. */
  lemma {:induction false} SameSideAsSeed(H: Graph, G0: Graph, G: Graph, r: PartialMap, S: set<string>, k: nat)
    requires GrowsFrom(H, G0, G, r, 1) && k < |r|
    ensures NoFrontier(H, S) ==> (r[k].0 in S <==> r[0].0 in S)
    decreases k
  {
    if k > 0 {
      assert StepOk(H, G0, G, r, k);
      var j := FrontierNeighbour(H, r, k);
      SameSideAsSeed(H, G0, G, r, S, j);
      NeighbourJoined(H, r[j].0, r[k].0);
      NeighborsSymmetric(H, r[j].0, r[k].0);
    }
  }

  /** A complete map grown step by step from its first entry reaches every query vertex along
      edges, so the query graph is connected: the search returns nothing on a query graph
      that is not. */
  lemma GrownConnected(H: Graph, G0: Graph, G: Graph, r: PartialMap)
    requires WellFormed(H) && |r| == |H.vertices| > 0
    requires KeysDistinct(r) && forall k :: k in Keys(r) ==> k in H.vertices
    requires GrowsFrom(H, G0, G, r, 1)
    ensures Connected(H)
  {
    DistinctWithin(Keys(r), H.vertices);
    forall S | S != {} && S < SetOf(H.vertices) ensures !NoFrontier(H, S) {
      var inside :| inside in S;
      var outside :| outside in SetOf(H.vertices) && outside !in S;
      var a :| 0 <= a < |r| && Keys(r)[a] == inside;
      var b :| 0 <= b < |r| && Keys(r)[b] == outside;
      SameSideAsSeed(H, G0, G, r, S, a);
      SameSideAsSeed(H, G0, G, r, S, b);
    }
  }

  /** A search from a one-entry map that returns anything was run on a connected query
      graph. */
  lemma OneEntryConnected(H: Graph, G0: Graph, G: Graph, f: PartialMap, xs: seq<Mapping>)
    requires WellFormed(H) && |f| == 1 && xs != [] && forall x :: x in xs ==> Extends(H, G0, G, f, x)
    ensures Connected(H)
  {
    assert Extends(H, G0, G, f, xs[0]);
    GrownConnected(H, G0, G, xs[0].fn);
  }

  /** Results of the search from f are injective when f is. */
  lemma ExtendsInjective(H: Graph, G0: Graph, G: Graph, f: PartialMap, xs: seq<Mapping>)
    requires Injective(f) && forall x :: x in xs ==> Extends(H, G0, G, f, x)
    ensures forall x :: x in xs ==> Injective(x.fn)
  {
    forall x | x in xs ensures Injective(x.fn) {
      GrowsInjective(H, G0, G, f, x.fn);
    }
  }

  /** A candidate drawn from a valid neighbours-of-range entry for the values of f. */
  lemma CandidateFacts(G0: Graph, G: Graph, f: PartialMap, c: seq<string>, n: string)
    requires CandidatesOk(G0, G, SetOf(Values(f)), c) && n in c
    ensures n !in Values(f) && exists y :: y in Values(f) && n in GetNeighbors(G0, y)
  {
    var y :| y in SetOf(Values(f)) && n in GetNeighbors(G0, y);
    assert y in Values(f);
  }

  /** f + [(m, n)] for a fresh query vertex m still has distinct keys, all query vertices. */
  lemma ExtendedMapFacts(H: Graph, f: PartialMap, m: string, n: string)
    requires KeysDistinct(f) && (forall k :: k in Keys(f) ==> k in H.vertices)
    requires m in H.vertices && m !in Keys(f)
    ensures KeysDistinct(f + [(m, n)]) && forall k :: k in Keys(f + [(m, n)]) ==> k in H.vertices
  {
    assert Keys(f + [(m, n)]) == Keys(f) + [m];
  }

  /** foreach (var item in partialMap) newPartialMap.Add(item.Key, item.Value) */
  method CopyMap(f: PartialMap) returns (g: PartialMap)
    ensures g == f
  {
    g := [];
    for k := 0 to |f|
      invariant g == f[..k]
    {
      assert f[..k + 1] == f[..k] + [f[k]];
      g := g + [f[k]];
    }
    assert f[..|f|] == f;
  }

  /** new HashSet<string>(item.Function.Values).Count == item.Function.Count */
  predicate ValuesDistinctCount(x: Mapping)
  {
    |SetOf(Values(x.fn))| == |x.fn|
  }

  /** The count test is exactly injectivity. */
  lemma ValuesDistinctCountIsInjective(x: Mapping)
    ensures ValuesDistinctCount(x) <==> Injective(x.fn)
  {
    SetOfCard(Values(x.fn));
  }

  /** The body of the subList.ForEach lambda, as a value: item is appended when its map is
      injective and no mapping of r is equal to it. */
  function Admit(r: seq<Mapping>, item: Mapping): seq<Mapping>
  {
    if Injective(item.fn) && FindSameFunction(r, item).None? then r + [item] else r
  }

  /** The whole subList.ForEach, as a value: the items of sub admitted one after another. */
  function AdmitAll(list: seq<Mapping>, sub: seq<Mapping>): seq<Mapping>
    decreases |sub|
  {
    if sub == [] then list else Admit(AdmitAll(list, sub[..|sub| - 1]), sub[|sub| - 1])
  }

  /** Admitting keeps r, appends only an injective item, leaves every injective item
      represented, and never brings in a second mapping equal to one already there. */
  lemma AdmitFacts(r: seq<Mapping>, item: Mapping)
    ensures Admit(r, item) == r || (Admit(r, item) == r + [item] && Injective(item.fn))
    ensures Injective(item.fn) ==> exists y :: y in Admit(r, item) && SameFunction(y, item)
    ensures NoTwoSame(r) ==> NoTwoSame(Admit(r, item))
  {
    var r' := Admit(r, item);
    if Injective(item.fn) {
      var existing := FindSameFunction(r, item);
      if existing.None? {
        assert forall i :: 0 <= i < |r| ==> !SameFunction(r[i], item) by {
          forall i | 0 <= i < |r| ensures !SameFunction(r[i], item) { assert r[i] in r; }
        }
        assert r'[|r'| - 1] == item;
        assert item in r' && SameFunction(item, item);
      } else {
        assert existing.value in r';
      }
    }
  }

  /** The merge keeps list as a prefix and takes its new members from sub, injective ones
      only. */
  lemma {:induction false} AdmitAllExtends(list: seq<Mapping>, sub: seq<Mapping>)
    ensures var r := AdmitAll(list, sub);
      && |list| <= |r| && r[..|list|] == list
      && (forall x :: x in r ==> x in list || x in sub)
      && (forall k :: |list| <= k < |r| ==> Injective(r[k].fn))
    decreases |sub|
  {
    if sub != [] {
      var p, last := sub[..|sub| - 1], sub[|sub| - 1];
      var r0 := AdmitAll(list, p);
      AdmitAllExtends(list, p);
      AdmitFacts(r0, last);
      assert forall x :: x in p ==> x in sub;
    }
  }

  /** Every injective item of sub is represented in the merge, and the merge admits no second
      mapping equal to one it holds. */
  lemma {:induction false} AdmitAllCovers(list: seq<Mapping>, sub: seq<Mapping>)
    ensures var r := AdmitAll(list, sub);
      && (forall x :: x in sub && Injective(x.fn) ==> exists y :: y in r && SameFunction(y, x))
      && (NoTwoSame(list) ==> NoTwoSame(r))
    decreases |sub|
  {
    if sub != [] {
      var p, last := sub[..|sub| - 1], sub[|sub| - 1];
      var r0 := AdmitAll(list, p);
      AdmitAllCovers(list, p);
      AdmitFacts(r0, last);
      var r := AdmitAll(list, sub);
      assert forall y :: y in r0 ==> y in r;
      forall x | x in sub && Injective(x.fn) ensures exists y :: y in r && SameFunction(y, x) {
        if x != last {
          var i :| 0 <= i < |sub| && sub[i] == x;
          assert x in p;
        }
      }
    }
  }

  /** The list the candidate loop builds from its batches: the first non-empty batch is
      taken whole, every later one is merged into the list through AdmitAll. */
  function MergeBatches(batches: seq<seq<Mapping>>): seq<Mapping>
    decreases |batches|
  {
    if batches == [] then []
    else
      var acc := MergeBatches(batches[..|batches| - 1]);
      if acc == [] then batches[|batches| - 1] else AdmitAll(acc, batches[|batches| - 1])
  }

  /** One more batch. */
  lemma MergeBatchesStep(batches: seq<seq<Mapping>>, b: seq<Mapping>)
    ensures MergeBatches(batches + [b]) ==
      if MergeBatches(batches) == [] then b else AdmitAll(MergeBatches(batches), b)
  {
    assert (batches + [b])[..|batches|] == batches;
  }

  /** What the merged list holds: only members of the batches, a representative of every
      injective member, the first non-empty batch whole, and nothing when every batch is
      empty. */
  lemma {:induction false} MergeBatchesMerged(batches: seq<seq<Mapping>>)
    ensures Merged(MergeBatches(batches), batches)
    decreases |batches|
  {
    if batches != [] {
      var bs, b := batches[..|batches| - 1], batches[|batches| - 1];
      assert batches == bs + [b];
      MergeBatchesMerged(bs);
      MergeBatchesStep(bs, b);
      var acc := MergeBatches(bs);
      if acc == [] {
        MergedFirst(bs, b);
      } else {
        AdmitAllExtends(acc, b);
        AdmitAllCovers(acc, b);
        MergedMore(acc, bs, b, AdmitAll(acc, b));
      }
    }
  }

  /** The body of the subList.ForEach lambda: item is appended when its values are all
      distinct and no mapping of r is equal to it. */
  method AddIfNew(r: seq<Mapping>, item: Mapping) returns (r': seq<Mapping>)
    ensures r' == Admit(r, item)
  {
    r' := r;
    ValuesDistinctCountIsInjective(item);
    if ValuesDistinctCount(item) {
      var existing := FindSameFunction(r, item);
      if existing.None? {
        r' := r + [item];
      }
    }
  }

  /** subList.ForEach: each item whose values are all distinct is appended unless the list
      (including what this loop appended) already holds a mapping equal to it. */
  method AddNewIsomorphisms(list: seq<Mapping>, sub: seq<Mapping>) returns (r: seq<Mapping>)
    ensures r == AdmitAll(list, sub)
    ensures |list| <= |r| && r[..|list|] == list
    ensures forall x :: x in r ==> x in list || x in sub
    ensures forall k :: |list| <= k < |r| ==> Injective(r[k].fn)
    ensures forall x :: x in sub && Injective(x.fn) ==> exists y :: y in r && SameFunction(y, x)
    ensures NoTwoSame(list) ==> NoTwoSame(r)
  {
    r := list;
    for k := 0 to |sub|
      invariant r == AdmitAll(list, sub[..k])
    {
      assert sub[..k + 1][..k] == sub[..k];
      r := AddIfNew(r, sub[k]);
    }
    assert sub[..|sub|] == sub;
    AdmitAllExtends(list, sub);
    AdmitAllCovers(list, sub);
  }

  /** The base case: new Mapping(partialMap), the loop filling MapOnInputSubGraph, and the
      InputSubgraphs lookup keyed by the set of the values, filled on a miss from G. */
  method CompleteMapping(f: PartialMap, H: Graph, G: Graph, caches: MemoCaches, ghost G0: Graph) returns (x: Mapping)
    requires WellFormed(G) && EdgesSubset(G, G0) && AllMapped(H, f)
    requires caches.SubgraphsOk(G0, G)
    modifies caches
    ensures caches.SubgraphsOk(G0, G)
    ensures caches.neighboursOfRange == old(caches.neighboursOfRange)
    ensures caches.mostConstrainedNeighbours == old(caches.mostConstrainedNeighbours)
    ensures SetOf(Values(f)) in old(caches.inputSubgraphs) ==> caches.inputSubgraphs == old(caches.inputSubgraphs)
    ensures SetOf(Values(f)) !in old(caches.inputSubgraphs) ==>
              && caches.inputSubgraphs == old(caches.inputSubgraphs)[SetOf(Values(f)) := x.inputSubGraph]
              && !x.inputSubGraph.allowParallelEdges && NoParallel(x.inputSubGraph.edges)
              && forall e :: e in x.inputSubGraph.edges <==> e in G.edges && e.source in Values(f) && e.target in Values(f)
    ensures x.fn == f && ImageOf(H, f, x.mapOnInputSubGraph)
    ensures SetOf(Values(f)) in caches.inputSubgraphs
    ensures x.inputSubGraph == caches.inputSubgraphs[SetOf(Values(f))]
    ensures SubgraphOk(G0, G, SetOf(Values(f)), x.inputSubGraph)
  {
    var img := BuildMapOnInputSubGraph(f, H);
    var inputSubgraphKey := Values(f);
    var key := SetOf(inputSubgraphKey);
    if key !in caches.inputSubgraphs {
      var newInputSubgraph := BuildInputSubgraph(inputSubgraphKey, G);
      caches.inputSubgraphs := caches.inputSubgraphs[key := newInputSubgraph];
    }
    x := Mapping(f, img, caches.inputSubgraphs[key]);
  }

  /** The base case's mapping is a result of the search from a complete f. */
  lemma BaseCaseExtends(H: Graph, G0: Graph, G: Graph, f: PartialMap, x: Mapping)
    requires KeysDistinct(f) && (forall k :: k in Keys(f) ==> k in H.vertices)
    requires |f| == |H.vertices|
    requires x.fn == f && ImageOf(H, f, x.mapOnInputSubGraph)
    requires SubgraphOk(G0, G, SetOf(Values(f)), x.inputSubGraph)
    ensures Extends(H, G0, G, f, x)
  {
    assert f[..|f|] == f;
    assert Completes(H, f, x.fn);
    assert GrowsFrom(H, G0, G, x.fn, |f|);
  }

  /** The vertex picked when the domain has a frontier is a query vertex not yet mapped. */
  lemma FrontierVertexFacts(H: Graph, f: PartialMap, m: string)
    requires WellFormed(H) && InFrontier(H, SetOf(Keys(f)), m)
    ensures m in H.vertices && m !in Keys(f)
  {
    var d :| d in SetOf(Keys(f)) && m in GetNeighbors(H, d);
    NeighbourIsVertex(H, d, m);
  }

  /** Every mapping of xs is a result of the search from f. */
  ghost predicate AllExtend(H: Graph, G0: Graph, G: Graph, f: PartialMap, xs: seq<Mapping>)
  {
    forall x :: x in xs ==> Extends(H, G0, G, f, x)
  }

  /** The body of the candidate loop once n passed the compatibility test: f' = f on D and
      f'(m) = n, then all isomorphic extensions of f'. They are results of the search from f. */
  method ExtendWith(f: PartialMap, m: string, n: string, H: Graph, G: Graph, caches: MemoCaches, ghost G0: Graph)
    returns (subList: seq<Mapping>)
    requires WellFormed(H) && WellFormed(G) && EdgesSubset(G, G0)
    requires KeysDistinct(f) && (forall k :: k in Keys(f) ==> k in H.vertices) && |f| < |H.vertices|
    requires m in H.vertices && !IsNullOrWhiteSpace(m) && InFrontier(H, SetOf(Keys(f)), m)
    requires n !in Values(f) && exists y :: y in Values(f) && n in GetNeighbors(G0, y)
    requires !Incompatible(G, H, n, m, f)
    requires caches.Valid(H, G0, G)
    modifies caches
    ensures caches.Valid(H, G0, G)
    ensures AllExtend(H, G0, G, f, subList) && NoTwoSame(subList)
    ensures AllExtend(H, G0, G, f + [(m, n)], subList)
    ensures Connected(H) ==> FindsAll(H, G, f + [(m, n)], subList)
    decreases |H.vertices| - |f|, 0
  {
    var newPartialMap := CopyMap(f);
    newPartialMap := Put(newPartialMap, m, n);
    ExtendedMapFacts(H, f, m, n);
    subList := IsomorphicExtension(newPartialMap, H, G, caches, G0);
    LiftAll(H, G0, G, f, m, n, subList);
  }

  /** IsomorphicExtension(partialMap, queryGraph, inputGraph): every result completes f along
      legal search steps, with the two subgraphs built as the base case builds them; no two
      results are the same function; a complete f yields just itself; a domain with no
      frontier yields nothing. Started from a non-empty f on a connected query graph, the
      search misses no embedding of the query graph in G that agrees with f. The memo tables
      stay valid. G0 is the graph the tables may have been filled from; G the graph searched
      now. */
  method IsomorphicExtension(f: PartialMap, H: Graph, G: Graph, caches: MemoCaches, ghost G0: Graph)
    returns (isos: seq<Mapping>)
    requires WellFormed(H) && WellFormed(G) && EdgesSubset(G, G0)
    requires KeysDistinct(f) && forall k :: k in Keys(f) ==> k in H.vertices
    requires caches.Valid(H, G0, G)
    modifies caches
    ensures caches.Valid(H, G0, G)
    ensures forall x :: x in isos ==> Extends(H, G0, G, f, x)
    ensures Injective(f) ==> forall x :: x in isos ==> Injective(x.fn)
    ensures NoTwoSame(isos)
    ensures |f| == |H.vertices| ==> |isos| == 1 && isos[0].fn == f
    ensures |f| < |H.vertices| && NoFrontier(H, SetOf(Keys(f))) ==> isos == []
    ensures f != [] && Connected(H) ==> FindsAll(H, G, f, isos)
    ensures |f| == 1 && !Connected(H) ==> isos == []
    decreases |H.vertices| - |f|, 3
  {
    DistinctWithin(Keys(f), H.vertices);
    if |f| == |H.vertices| {
      TotalMap(H, f, f);
      var x := CompleteMapping(f, H, G, caches, G0);
      BaseCaseExtends(H, G0, G, f, x);
      CompleteFindsAll(H, G, f, x);
      if |f| == 1 {
        OneEntryConnected(H, G0, G, f, [x]);
      }
      return [x];
    }
    var m := GetMostConstrainedNeighbour(Keys(f), H, caches);
    PickInFrontier(H, G, f, m);
    if IsNullOrWhiteSpace(m) {
      return [];
    }
    var neighbourRange := ChooseNeighboursOfRange(Values(f), G, caches, G0);
    FrontierVertexFacts(H, f, m);
    ghost var batches;
    isos, batches := ExtendAcross(f, m, neighbourRange, H, G, caches, G0);
    if Injective(f) {
      ExtendsInjective(H, G0, G, f, isos);
    }
    if |f| == 1 && isos != [] {
      OneEntryConnected(H, G0, G, f, isos);
    }
    if f != [] && Connected(H) {
      MergeBatchesMerged(batches);
      CandidatesFindAll(H, G0, G, f, m, neighbourRange, isos, batches);
    }
  }

  /** One pass of the candidate loop, for candidate t: skipped when it fails the
      compatibility test, otherwise f is extended by m -> neighbourRange[t], searched on, and
      the batch merged into isos. */
  method TryCandidate(f: PartialMap, m: string, neighbourRange: seq<string>, t: nat, H: Graph, G: Graph,
                      caches: MemoCaches, ghost G0: Graph, isos: seq<Mapping>, ghost batches: seq<seq<Mapping>>)
    returns (isos': seq<Mapping>, ghost batches': seq<seq<Mapping>>)
    requires WellFormed(H) && WellFormed(G) && EdgesSubset(G, G0)
    requires KeysDistinct(f) && (forall k :: k in Keys(f) ==> k in H.vertices) && |f| < |H.vertices|
    requires m in H.vertices && !IsNullOrWhiteSpace(m) && InFrontier(H, SetOf(Keys(f)), m)
    requires CandidatesOk(G0, G, SetOf(Values(f)), neighbourRange) && t < |neighbourRange|
    requires caches.Valid(H, G0, G)
    requires AllExtend(H, G0, G, f, isos) && NoTwoSame(isos)
    requires Searched(H, G0, G, f, m, neighbourRange, batches) && |batches| == t && isos == MergeBatches(batches)
    modifies caches
    ensures caches.Valid(H, G0, G)
    ensures AllExtend(H, G0, G, f, isos') && NoTwoSame(isos')
    ensures Searched(H, G0, G, f, m, neighbourRange, batches') && |batches'| == t + 1
    ensures isos' == MergeBatches(batches')
    decreases |H.vertices| - |f|, 1
  {
    var n := neighbourRange[t];
    ghost var ns := neighbourRange;
    assert n in neighbourRange;
    var incompatible := IsNeighbourIncompatible(G, H, n, m, f);
    if incompatible {
      BatchOkIntro(H, G0, G, f, m, n, []);
      SearchedStep(H, G0, G, f, m, ns, batches, n, []);
      MergeBatchesStep(batches, []);
      return isos, batches + [[]];
    }
    assert n !in Values(f) && exists y :: y in Values(f) && n in GetNeighbors(G0, y) by {
      var r :| r in SetOf(Values(f)) && n in GetNeighbors(G0, r);
    }
    var subList := ExtendWith(f, m, n, H, G, caches, G0);
    BatchOkIntro(H, G0, G, f, m, n, subList);
    SearchedStep(H, G0, G, f, m, ns, batches, n, subList);
    MergeBatchesStep(batches, subList);
    if |isos| == 0 {
      isos' := subList;
    } else {
      isos' := AddNewIsomorphisms(isos, subList);
    }
    batches' := batches + [subList];
  }

  /** The foreach over the candidates. Candidate t yields the batch batches[t]: nothing when
      it fails the compatibility test, otherwise the results of the search from f extended by
      m -> neighbourRange[t]. The first non-empty batch is taken whole; later ones only add
      their injective mappings that isos does not yet hold an equal of. */
  method ExtendAcross(f: PartialMap, m: string, neighbourRange: seq<string>, H: Graph, G: Graph,
                      caches: MemoCaches, ghost G0: Graph)
    returns (isos: seq<Mapping>, ghost batches: seq<seq<Mapping>>)
    requires WellFormed(H) && WellFormed(G) && EdgesSubset(G, G0)
    requires KeysDistinct(f) && (forall k :: k in Keys(f) ==> k in H.vertices) && |f| < |H.vertices|
    requires m in H.vertices && !IsNullOrWhiteSpace(m) && InFrontier(H, SetOf(Keys(f)), m)
    requires CandidatesOk(G0, G, SetOf(Values(f)), neighbourRange)
    requires caches.Valid(H, G0, G)
    modifies caches
    ensures caches.Valid(H, G0, G)
    ensures AllExtend(H, G0, G, f, isos) && NoTwoSame(isos)
    ensures Searched(H, G0, G, f, m, neighbourRange, batches) && |batches| == |neighbourRange|
    ensures isos == MergeBatches(batches)
    decreases |H.vertices| - |f|, 2
  {
    isos, batches := [], [];
    for t := 0 to |neighbourRange|
      invariant caches.Valid(H, G0, G)
      invariant AllExtend(H, G0, G, f, isos) && NoTwoSame(isos)
      invariant Searched(H, G0, G, f, m, neighbourRange, batches) && |batches| == t
      invariant isos == MergeBatches(batches)
    {
      isos, batches := TryCandidate(f, m, neighbourRange, t, H, G, caches, G0, isos, batches);
    }
  }
}
