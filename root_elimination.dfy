/** The root-elimination driver of MODACrossPlatform/MODA.Impl/ModaAlgorithms.2.cs (Algorithm2,
    "FindSubgraphInstances" in Grochow and Kellis): the input graph G is cloned, a degree-ordered
    prefix of G's vertices is walked, every query vertex h that a root g can support seeds a
    search from {h -> g} on the clone, and g is then removed from the clone. The results are
    filed in buckets keyed by the last value of their map and flattened at the end. */
module RootElimination {
  import opened Collections
  import opened Graphs
  import opened Mappings
  import opened Extensions
  import opened ModaAlgorithms

  // ---------------------------------------------------------------- the sample count

  /** if (numberOfSamples <= 0) numberOfSamples = inputGraph.VertexCount / 3 */
  function SampleCount(numberOfSamples: int, vertexCount: nat): (r: int)
    ensures numberOfSamples > 0 ==> r == numberOfSamples
    ensures numberOfSamples <= 0 ==> 0 <= 3 * r <= vertexCount < 3 * r + 3
  {
    if numberOfSamples <= 0 then vertexCount / 3 else numberOfSamples
  }

  // ---------------------------------------------------------------- the shrinking clone

  /** The working clone c after RemoveVertex of each vertex of rs in turn. */
  function RemoveAll(c: Graph, rs: seq<string>): Graph
    decreases |rs|
  {
    if rs == [] then c else RemoveVertex(RemoveAll(c, rs[..|rs| - 1]), rs[|rs| - 1])
  }

  /** Removing the roots one by one keeps the clone well formed, only loses edges, and leaves
      exactly the vertices that are not roots. */
  lemma {:induction false} RemoveAllSpec(c: Graph, rs: seq<string>)
    requires WellFormed(c)
    ensures WellFormed(RemoveAll(c, rs)) && EdgesSubset(RemoveAll(c, rs), c)
    ensures forall v :: v in RemoveAll(c, rs).vertices <==> v in c.vertices && v !in rs
  {
    if rs != [] {
      var p, r := rs[..|rs| - 1], rs[|rs| - 1];
      RemoveAllSpec(c, p);
      RemoveVertexWellFormed(RemoveAll(c, p), r);
      assert rs == p + [r];
    }
  }

  /** The clone as it stands when root i is processed: the clone of G without roots[..i]. */
  function Remaining(G: Graph, roots: seq<string>, i: nat): Graph
    requires i <= |roots|
  {
    RemoveAll(Clone(G), roots[..i])
  }

  /** With distinct roots, root i is still in the clone when it is processed exactly when it
      is an end of an edge of G, and the clone then shrinks by that root alone. */
  lemma RootStillPresent(G: Graph, roots: seq<string>, i: nat)
    requires WellFormed(G) && Distinct(roots) && i < |roots|
    ensures roots[i] in Remaining(G, roots, i).vertices <==> roots[i] in G.vertices && Degree(G, roots[i]) > 0
    ensures Remaining(G, roots, i + 1) == RemoveVertex(Remaining(G, roots, i), roots[i])
  {
    assert roots[i] in Remaining(G, roots, i).vertices <==> roots[i] in G.vertices && Degree(G, roots[i]) > 0 by {
      CloneSpec(G);
      RemoveAllSpec(Clone(G), roots[..i]);
      assert roots[i] !in roots[..i] by {
        forall k | 0 <= k < i ensures roots[..i][k] != roots[i] { assert roots[..i][k] == roots[k]; }
      }
    }
    assert roots[..i + 1][..i] == roots[..i];
    assert roots[..i + 1][i] == roots[i];
  }

  // ---------------------------------------------------------------- what a result is

  /** x is a search result from the seed {h -> g} on the clone, for some query vertex h that
      g supports there. */
  ghost predicate SeededAt(H: Graph, G0: Graph, clone: Graph, g: string, x: Mapping)
  {
    exists h :: h in H.vertices && Supports(H, h, clone, g) && Extends(H, G0, clone, [(h, g)], x)
  }

  /** phi embeds the query graph in the clone and sends h to g, and g supports h there: an
      embedding the search seeded with {h -> g} must find. */
  ghost predicate RootedAt(H: Graph, clone: Graph, h: string, g: string, phi: map<string, string>)
  {
    h in H.vertices && Supports(H, h, clone, g) && Embeds(H, clone, phi) && h in phi && phi[h] == g
  }

  /** x was found from one of the roots, on the clone as it stood when that root came up. */
  ghost predicate Found(H: Graph, G: Graph, roots: seq<string>, x: Mapping)
  {
    exists i :: 0 <= i < |roots| && SeededAt(H, G, Remaining(G, roots, i), roots[i], x)
  }

  /** A search result from the seed {h -> g} starts with that seed and covers the query vertices. */
  lemma ExtendsSeedShape(H: Graph, G0: Graph, clone: Graph, h: string, g: string, x: Mapping)
    requires WellFormed(H) && Extends(H, G0, clone, [(h, g)], x)
    ensures |x.fn| == |H.vertices| > 0 && x.fn[0] == (h, g)
    ensures forall v :: v in H.vertices ==> v in AsMap(x.fn)
  {
    assert Completes(H, [(h, g)], x.fn);
    assert x.fn[..1] == [(h, g)];
    assert x.fn[0] == x.fn[..1][0];
    TotalMap(H, [(h, g)], x.fn);
  }

  /** A search result from the seed {h -> g} is injective. */
  lemma ExtendsSeedInjective(H: Graph, G0: Graph, clone: Graph, h: string, g: string, x: Mapping)
    requires Extends(H, G0, clone, [(h, g)], x)
    ensures Injective(x.fn)
  {
    var seed := [(h, g)];
    assert Injective(seed) by { assert Values(seed) == [g]; }
    assert Completes(H, seed, x.fn) && GrowsFrom(H, G0, clone, x.fn, 1);
    GrowsInjective(H, G0, clone, seed, x.fn);
  }

  /** A result seeded at g is total over the query vertices, injective, starts with g and maps
      every query edge into MapOnInputSubGraph. */
  lemma SeededFacts(H: Graph, G0: Graph, clone: Graph, g: string, x: Mapping)
    requires WellFormed(H) && SeededAt(H, G0, clone, g, x)
    ensures |x.fn| == |H.vertices| > 0 && x.fn[0].1 == g
    ensures forall v :: v in H.vertices ==> v in AsMap(x.fn)
    ensures Injective(x.fn) && ImageOf(H, x.fn, x.mapOnInputSubGraph)
  {
    var h :| h in H.vertices && Supports(H, h, clone, g) && Extends(H, G0, clone, [(h, g)], x);
    ExtendsSeedShape(H, G0, clone, h, g, x);
    ExtendsSeedInjective(H, G0, clone, h, g, x);
  }

  // ---------------------------------------------------------------- the buckets

  /** theMappings: a Dictionary<string, List<Mapping>>, its keys in insertion order. */
  type Buckets = map<string, seq<Mapping>>

  /** The bucket table as Algorithm2 keeps it: keys listed once each, every bucket non-empty,
      every mapping filed under the last value of its map, and no two mappings of a bucket
      equal as functions. */
  ghost predicate BucketsOk(keys: seq<string>, buckets: Buckets)
  {
    && Distinct(keys)
    && (forall k :: k in keys <==> k in buckets)
    && forall k :: k in buckets ==>
         && buckets[k] != [] && NoTwoSame(buckets[k])
         && forall x :: x in buckets[k] ==> |x.fn| > 0 && LastValue(x) == k
  }

  /** Every mapping in the buckets b' was already in the same bucket of b or is one of added. */
  ghost predicate GainedOnly(b: Buckets, b': Buckets, added: seq<Mapping>)
  {
    forall k, x :: k in b' && x in b'[k] ==> (k in b && x in b[k]) || x in added
  }

  /** Filing nothing gains nothing. */
  lemma GainedNothing(b: Buckets)
    ensures GainedOnly(b, b, [])
  {
  }

  /** What two rounds of filing gain is what each gains. */
  lemma GainedOnlyTrans(b0: Buckets, b1: Buckets, b2: Buckets, a1: seq<Mapping>, a2: seq<Mapping>)
    requires GainedOnly(b0, b1, a1) && GainedOnly(b1, b2, a2)
    ensures GainedOnly(b0, b2, a1 + a2)
  {
  }

  /** The bucket of the last value of x holds a mapping equal to x. */
  ghost predicate Filed(buckets: Buckets, x: Mapping)
    requires |x.fn| > 0
  {
    LastValue(x) in buckets && exists y :: y in buckets[LastValue(x)] && SameFunction(y, x)
  }

  /** b' keeps every bucket of b, with its mappings in front in the same order. */
  ghost predicate Grows(b: Buckets, b': Buckets)
  {
    forall k :: k in b ==> k in b' && b[k] <= b'[k]
  }

  /** Growing buckets keep what they filed. */
  lemma FiledGrows(b: Buckets, b': Buckets, xs: seq<Mapping>)
    requires Grows(b, b') && forall x :: x in xs ==> |x.fn| > 0 && Filed(b, x)
    ensures forall x :: x in xs ==> Filed(b', x)
  {
    forall x | x in xs ensures Filed(b', x) {
      var y :| y in b[LastValue(x)] && SameFunction(y, x);
      assert y in b'[LastValue(x)];
    }
  }

  /** Some bucket holds a mapping whose map is phi. */
  ghost predicate Holds(buckets: Buckets, phi: map<string, string>)
  {
    exists k, y :: k in buckets && y in buckets[k] && AsMap(y.fn) == phi
  }

  /** Growing buckets keep every map they held. */
  lemma HoldsGrows(b: Buckets, b': Buckets)
    requires Grows(b, b')
    ensures forall phi :: Holds(b, phi) ==> Holds(b', phi)
  {
    forall phi | Holds(b, phi) ensures Holds(b', phi) {
      var k, y :| k in b && y in b[k] && AsMap(y.fn) == phi;
      assert y in b'[k];
    }
  }

  /** Buckets that only grow: each step keeps what the step before kept. */
  lemma GrowsTrans(b0: Buckets, b1: Buckets, b2: Buckets)
    requires Grows(b0, b1) && Grows(b1, b2)
    ensures Grows(b0, b2)
  {
    forall k | k in b0 ensures k in b2 && b0[k] <= b2[k] {
      assert b0[k] <= b1[k] <= b2[k];
    }
  }

  /** A filed mapping's map is held. */
  lemma FiledHolds(buckets: Buckets, x: Mapping)
    requires |x.fn| > 0 && Filed(buckets, x)
    ensures Holds(buckets, AsMap(x.fn))
  {
    var y :| y in buckets[LastValue(x)] && SameFunction(y, x);
  }

  /** Appending a mapping to its own bucket, which holds no equal mapping, keeps the buckets
      well formed, files the mapping and gains nothing else. */
  lemma AppendToBucket(keys: seq<string>, buckets: Buckets, mapping: Mapping)
    requires BucketsOk(keys, buckets) && |mapping.fn| > 0 && LastValue(mapping) in buckets
    requires forall x :: x in buckets[LastValue(mapping)] ==> !SameFunction(x, mapping)
    ensures var k := LastValue(mapping); var b' := buckets[k := buckets[k] + [mapping]];
      BucketsOk(keys, b') && Filed(b', mapping) && Grows(buckets, b') && GainedOnly(buckets, b', [mapping])
  {
    var k := LastValue(mapping);
    var grown := buckets[k] + [mapping];
    assert SameFunction(mapping, mapping);
    assert NoTwoSame(grown) by {
      forall i, j | 0 <= i < j < |grown| ensures !SameFunction(grown[i], grown[j]) {
        if j == |buckets[k]| { assert grown[i] in buckets[k]; }
      }
    }
    assert grown[|grown| - 1] == mapping;
  }

  /** The body of the foreach over the mappings: look the mapping's last value up, append the
      mapping to its bucket unless an equal mapping is there, or start the bucket with it. */
  method FileMapping(keys: seq<string>, buckets: Buckets, mapping: Mapping) returns (keys': seq<string>, buckets': Buckets)
    requires BucketsOk(keys, buckets) && |mapping.fn| > 0
    ensures BucketsOk(keys', buckets')
    ensures var k := LastValue(mapping);
      if k !in buckets then keys' == keys + [k] && buckets' == buckets[k := [mapping]]
      else keys' == keys && buckets'.Keys == buckets.Keys
           && (forall k' :: k' in buckets && k' != k ==> buckets'[k'] == buckets[k'])
           && (buckets'[k] == buckets[k] || buckets'[k] == buckets[k] + [mapping])
    ensures Filed(buckets', mapping) && Grows(buckets, buckets') && GainedOnly(buckets, buckets', [mapping])
  {
    var gKey := LastValue(mapping);
    keys', buckets' := keys, buckets;
    if gKey in buckets {
      var mappingsToSearch := buckets[gKey];
      var existing := FindSameFunction(mappingsToSearch, mapping);
      if existing.None? {
        var grown := mappingsToSearch + [mapping];
        buckets' := buckets[gKey := grown];
        AppendToBucket(keys, buckets, mapping);
      } else {
        assert existing.value in buckets'[gKey] && SameFunction(existing.value, mapping);
      }
    } else {
      keys' := keys + [gKey];
      buckets' := buckets[gKey := [mapping]];
      assert mapping in buckets'[gKey] && SameFunction(mapping, mapping);
    }
  }

  /** The buckets of keys, concatenated in key order. */
  function Flatten(keys: seq<string>, buckets: Buckets): seq<Mapping>
    requires forall k :: k in keys ==> k in buckets
  {
    if keys == [] then [] else Flatten(keys[..|keys| - 1], buckets) + buckets[keys[|keys| - 1]]
  }

  /** The sum of the sizes of the buckets of keys. */
  function TotalSize(keys: seq<string>, buckets: Buckets): nat
    requires forall k :: k in keys ==> k in buckets
  {
    if keys == [] then 0 else TotalSize(keys[..|keys| - 1], buckets) + |buckets[keys[|keys| - 1]]|
  }

  /** The flattened list is as long as the buckets together. */
  lemma {:induction false} FlattenSize(keys: seq<string>, buckets: Buckets)
    requires forall k :: k in keys ==> k in buckets
    ensures |Flatten(keys, buckets)| == TotalSize(keys, buckets)
  {
    if keys != [] {
      FlattenSize(keys[..|keys| - 1], buckets);
    }
  }

  /** The flattened list holds exactly the mappings of the buckets of keys. */
  lemma {:induction false} FlattenMembers(keys: seq<string>, buckets: Buckets)
    requires forall k :: k in keys ==> k in buckets
    ensures forall x :: x in Flatten(keys, buckets) <==> exists k :: k in keys && x in buckets[k]
  {
    if keys != [] {
      var p, last := keys[..|keys| - 1], keys[|keys| - 1];
      FlattenMembers(p, buckets);
      forall x ensures x in Flatten(keys, buckets) <==> exists k :: k in keys && x in buckets[k] {
        if exists k :: k in keys && x in buckets[k] {
          var k :| k in keys && x in buckets[k];
          if k != last { assert k in p; }
        }
      }
    }
  }

  /** A map held in a bucket of keys has a mapping in the flattened list. */
  lemma FlattenHolds(keys: seq<string>, buckets: Buckets)
    requires forall k :: k in keys <==> k in buckets
    ensures forall phi :: Holds(buckets, phi) ==> exists y :: y in Flatten(keys, buckets) && AsMap(y.fn) == phi
  {
    FlattenMembers(keys, buckets);
    forall phi | Holds(buckets, phi) ensures exists y :: y in Flatten(keys, buckets) && AsMap(y.fn) == phi {
      var k, y :| k in buckets && y in buckets[k] && AsMap(y.fn) == phi;
      assert k in keys;
    }
  }

  /** Two mappings of a list with the same last value are never the same function. */
  ghost predicate NoTwoSameWithin(xs: seq<Mapping>)
  {
    forall i, j :: 0 <= i < j < |xs| && |xs[i].fn| > 0 && |xs[j].fn| > 0 && LastValue(xs[i]) == LastValue(xs[j])
      ==> !SameFunction(xs[i], xs[j])
  }

  /** Buckets that file every mapping under its last value and hold no two equal mappings
      flatten to a list in which mappings with the same last value are never equal. */
  lemma {:induction false} FlattenNoTwoSame(keys: seq<string>, buckets: Buckets)
    requires Distinct(keys) && forall k :: k in keys ==> k in buckets
    requires forall k :: k in buckets ==>
               NoTwoSame(buckets[k]) && forall x :: x in buckets[k] ==> |x.fn| > 0 && LastValue(x) == k
    ensures NoTwoSameWithin(Flatten(keys, buckets))
  {
    if keys != [] {
      var p, last := keys[..|keys| - 1], keys[|keys| - 1];
      var F, B := Flatten(p, buckets), buckets[last];
      var r := Flatten(keys, buckets);
      assert r == F + B;
      assert Distinct(p) by {
        forall a, b | 0 <= a < b < |p| ensures p[a] != p[b] { assert p[a] == keys[a] && p[b] == keys[b]; }
      }
      assert last !in p by {
        forall a | 0 <= a < |p| ensures p[a] != last { assert p[a] == keys[a]; }
      }
      FlattenNoTwoSame(p, buckets);
      FlattenMembers(p, buckets);
      forall i, j | 0 <= i < j < |r| && |r[i].fn| > 0 && |r[j].fn| > 0
        ensures LastValue(r[i]) == LastValue(r[j]) ==> !SameFunction(r[i], r[j])
      {
        if j < |F| {
          assert r[i] == F[i] && r[j] == F[j];
        } else if |F| <= i {
          assert r[i] == B[i - |F|] && r[j] == B[j - |F|];
        } else {
          assert r[i] == F[i] && F[i] in F;
          var k :| k in p && r[i] in buckets[k];
          assert r[j] == B[j - |F|] && B[j - |F|] in B;
          assert LastValue(r[i]) == k != last == LastValue(r[j]);
        }
      }
    }
  }

  // ---------------------------------------------------------------- the driver

  /** The flattened buckets hold only found mappings when everything they gained was found. */
  lemma FlattenFound(H: Graph, G: Graph, roots: seq<string>, keys: seq<string>, buckets: Buckets, found: seq<Mapping>)
    requires forall k :: k in keys ==> k in buckets
    requires GainedOnly(map[], buckets, found)
    requires forall x {:trigger Found(H, G, roots, x)} :: x in found ==> Found(H, G, roots, x)
    ensures forall x {:trigger Found(H, G, roots, x)} :: x in Flatten(keys, buckets) ==> Found(H, G, roots, x)
  {
    FlattenMembers(keys, buckets);
    forall x | x in Flatten(keys, buckets) ensures Found(H, G, roots, x) {
      var k :| k in keys && x in buckets[k];
      assert x in found;
    }
  }

  /** The foreach over the mappings of one search: each is filed under its last value. The
      table stays well formed and only grows, it gains only mappings of the batch, and every
      mapping of the batch then has an equal in the bucket of its last value. */
  method FileAll(keys: seq<string>, buckets: Buckets, mappings: seq<Mapping>) returns (keys': seq<string>, buckets': Buckets)
    requires BucketsOk(keys, buckets) && forall x :: x in mappings ==> |x.fn| > 0
    ensures BucketsOk(keys', buckets') && Grows(buckets, buckets')
    ensures GainedOnly(buckets, buckets', mappings)
    ensures forall x :: x in mappings ==> Filed(buckets', x)
  {
    keys', buckets' := keys, buckets;
    for u := 0 to |mappings|
      invariant BucketsOk(keys', buckets') && Grows(buckets, buckets')
      invariant GainedOnly(buckets, buckets', mappings[..u])
      invariant forall x :: x in mappings[..u] ==> |x.fn| > 0 && Filed(buckets', x)
    {
      var mapping := mappings[u];
      assert mapping in mappings;
      ghost var before := buckets';
      keys', buckets' := FileMapping(keys', buckets', mapping);
      FiledGrows(before, buckets', mappings[..u]);
      GainedOnlyTrans(buckets, before, buckets', mappings[..u], [mapping]);
      TakeOneMore(mappings, u);
    }
    TakeAll(mappings);
  }

  /** The prefix one longer is the prefix and the next mapping. */
  lemma TakeOneMore(xs: seq<Mapping>, u: nat)
    requires u < |xs|
    ensures xs[..u + 1] == xs[..u] + [xs[u]]
  {
  }

  /** The prefix as long as the list is the list. */
  lemma TakeAll(xs: seq<Mapping>)
    ensures xs[..|xs|] == xs
  {
  }

  /** Results of a search seeded with {h -> g} for a supported h are seeded at g and non-empty. */
  lemma ResultsSeeded(H: Graph, G0: Graph, clone: Graph, h: string, g: string, mappings: seq<Mapping>)
    requires WellFormed(H) && h in H.vertices && Supports(H, h, clone, g)
    requires forall x :: x in mappings ==> Extends(H, G0, clone, [(h, g)], x)
    ensures forall x {:trigger SeededAt(H, G0, clone, g, x)} :: x in mappings ==> SeededAt(H, G0, clone, g, x)
    ensures forall x :: x in mappings ==> |x.fn| > 0
  {
    forall x | x in mappings ensures SeededAt(H, G0, clone, g, x) && |x.fn| > 0 {
      SeededFacts(H, G0, clone, g, x);
    }
  }

  /** A map sending h to g agrees with the seed {h -> g}. */
  lemma SeedAgrees(h: string, g: string, phi: map<string, string>)
    requires h in phi && phi[h] == g
    ensures Agrees([(h, g)], phi)
  {
  }

  /** An embedding rooted at h -> g agrees with the seed {h -> g}, so a search from the seed
      that misses nothing has a mapping for it. */
  lemma RootedFound(H: Graph, clone: Graph, h: string, g: string, mappings: seq<Mapping>)
    requires FindsAll(H, clone, [(h, g)], mappings)
    ensures forall phi :: RootedAt(H, clone, h, g, phi) ==> Represented(phi, mappings)
  {
    forall phi | RootedAt(H, clone, h, g, phi) ensures Represented(phi, mappings) {
      SeedAgrees(h, g, phi);
    }
  }

  /** The seed {h -> g} (the source's one-entry function) and the search from it on the
      clone: every result is seeded at g. */
  method SearchFromSeed(h: string, g: string, H: Graph, clone: Graph, caches: MemoCaches, ghost G0: Graph)
    returns (mappings: seq<Mapping>)
    requires WellFormed(H) && WellFormed(clone) && EdgesSubset(clone, G0)
    requires h in H.vertices && Supports(H, h, clone, g) && caches.Valid(H, G0, clone)
    modifies caches
    ensures caches.Valid(H, G0, clone)
    ensures forall x {:trigger SeededAt(H, G0, clone, g, x)} :: x in mappings ==> SeededAt(H, G0, clone, g, x)
    ensures forall x :: x in mappings ==> |x.fn| > 0
    ensures Connected(H) ==> forall phi :: RootedAt(H, clone, h, g, phi) ==> Represented(phi, mappings)
  {
    var seed := [(h, g)];
    assert Keys(seed) == [h];
    mappings := IsomorphicExtension(seed, H, clone, caches, G0);
    ResultsSeeded(H, G0, clone, h, g, mappings);
    if Connected(H) {
      RootedFound(H, clone, h, g, mappings);
    }
  }

  /** The "can support" block for one query vertex h and root g: when g supports h on the
      clone, a search seeded with {h -> g} runs on the clone and its results are filed. */
  method TryPair(h: string, g: string, H: Graph, clone: Graph, caches: MemoCaches, ghost G0: Graph,
                 keys: seq<string>, buckets: Buckets)
    returns (keys': seq<string>, buckets': Buckets, ghost added: seq<Mapping>)
    requires WellFormed(H) && WellFormed(clone) && EdgesSubset(clone, G0) && h in H.vertices
    requires caches.Valid(H, G0, clone) && BucketsOk(keys, buckets)
    modifies caches
    ensures caches.Valid(H, G0, clone) && BucketsOk(keys', buckets')
    ensures GainedOnly(buckets, buckets', added)
    ensures forall x {:trigger SeededAt(H, G0, clone, g, x)} :: x in added ==> SeededAt(H, G0, clone, g, x)
    ensures !Supports(H, h, clone, g) ==> keys' == keys && buckets' == buckets
    ensures Grows(buckets, buckets')
    ensures Connected(H) ==> forall phi :: RootedAt(H, clone, h, g, phi) ==> Holds(buckets', phi)
  {
    keys', buckets', added := keys, buckets, [];
    GainedNothing(buckets);
    var supported := CanSupport(H, h, clone, g);
    if supported {
      var mappings := SearchFromSeed(h, g, H, clone, caches, G0);
      if |mappings| == 0 {
        return;
      }
      keys', buckets' := FileAll(keys', buckets', mappings);
      added := mappings;
      forall phi | Connected(H) && RootedAt(H, clone, h, g, phi) ensures Holds(buckets', phi) {
        var y :| y in mappings && AsMap(y.fn) == phi;
        FiledHolds(buckets', y);
      }
    }
  }

  /** The inner foreach over the query vertices for one root g. What the buckets gain (added)
      was all seeded at g; when g supports no query vertex nothing changes. */
  method TryRoot(g: string, H: Graph, clone: Graph, caches: MemoCaches, ghost G0: Graph,
                 keys: seq<string>, buckets: Buckets)
    returns (keys': seq<string>, buckets': Buckets, ghost added: seq<Mapping>)
    requires WellFormed(H) && WellFormed(clone) && EdgesSubset(clone, G0)
    requires caches.Valid(H, G0, clone) && BucketsOk(keys, buckets)
    modifies caches
    ensures caches.Valid(H, G0, clone) && BucketsOk(keys', buckets')
    ensures GainedOnly(buckets, buckets', added)
    ensures forall x {:trigger SeededAt(H, G0, clone, g, x)} :: x in added ==> SeededAt(H, G0, clone, g, x)
    ensures (forall h :: h in H.vertices ==> !Supports(H, h, clone, g)) ==> keys' == keys && buckets' == buckets
    ensures Grows(buckets, buckets')
    ensures Connected(H) ==> forall h, phi :: RootedAt(H, clone, h, g, phi) ==> Holds(buckets', phi)
  {
    keys', buckets', added := keys, buckets, [];
    var queryGraphVertices := H.vertices;
    for t := 0 to |queryGraphVertices|
      invariant caches.Valid(H, G0, clone) && BucketsOk(keys', buckets')
      invariant GainedOnly(buckets, buckets', added)
      invariant forall x {:trigger SeededAt(H, G0, clone, g, x)} :: x in added ==> SeededAt(H, G0, clone, g, x)
      invariant (forall h :: h in H.vertices ==> !Supports(H, h, clone, g)) ==> keys' == keys && buckets' == buckets
      invariant Grows(buckets, buckets')
      invariant Connected(H) ==>
                  forall s, phi :: 0 <= s < t && RootedAt(H, clone, queryGraphVertices[s], g, phi) ==> Holds(buckets', phi)
    {
      var h := queryGraphVertices[t];
      ghost var more;
      ghost var before := buckets';
      keys', buckets', more := TryPair(h, g, H, clone, caches, G0, keys', buckets');
      GainedOnlyTrans(buckets, before, buckets', added, more);
      GrowsTrans(buckets, before, buckets');
      if Connected(H) {
        CoveredStep(H, clone, g, t, before, buckets');
      }
      added := added + more;
    }
    if Connected(H) {
      EveryQueryVertex(H, clone, g, buckets');
    }
  }

  /** Query vertex t covered by the buckets b', on top of the vertices before it, which
      buckets b covered and b' keeps. */
  lemma CoveredStep(H: Graph, clone: Graph, g: string, t: nat, b: Buckets, b': Buckets)
    requires t < |H.vertices| && Grows(b, b')
    requires forall s, phi :: 0 <= s < t && RootedAt(H, clone, H.vertices[s], g, phi) ==> Holds(b, phi)
    requires forall phi :: RootedAt(H, clone, H.vertices[t], g, phi) ==> Holds(b', phi)
    ensures forall s, phi :: 0 <= s < t + 1 && RootedAt(H, clone, H.vertices[s], g, phi) ==> Holds(b', phi)
  {
    HoldsGrows(b, b');
  }

  /** Covering the query vertices by position covers them all. */
  lemma EveryQueryVertex(H: Graph, clone: Graph, g: string, buckets: Buckets)
    requires forall s, phi :: 0 <= s < |H.vertices| && RootedAt(H, clone, H.vertices[s], g, phi) ==> Holds(buckets, phi)
    ensures forall h, phi :: RootedAt(H, clone, h, g, phi) ==> Holds(buckets, phi)
  {
    forall h, phi | RootedAt(H, clone, h, g, phi) ensures Holds(buckets, phi) {
      var s :| 0 <= s < |H.vertices| && H.vertices[s] == h;
    }
  }

  /** A result seeded at root i, on the clone as it stood then, was found from the roots. */
  lemma SeededIsFound(H: Graph, G: Graph, roots: seq<string>, i: nat, xs: seq<Mapping>)
    requires i < |roots|
    requires forall x {:trigger SeededAt(H, G, Remaining(G, roots, i), roots[i], x)} :: x in xs ==> SeededAt(H, G, Remaining(G, roots, i), roots[i], x)
    ensures forall x {:trigger Found(H, G, roots, x)} :: x in xs ==> Found(H, G, roots, x)
  {
    forall x | x in xs ensures Found(H, G, roots, x) {
      assert SeededAt(H, G, Remaining(G, roots, i), roots[i], x);
    }
  }

  /** What a found result is: total over the query vertices, injective, mapping every query
      edge into its MapOnInputSubGraph, and seeded at a root some query vertex it supported. */
  lemma FoundFacts(H: Graph, G: Graph, roots: seq<string>, x: Mapping)
    requires WellFormed(H) && Found(H, G, roots, x)
    ensures |x.fn| == |H.vertices| && Injective(x.fn)
    ensures forall v :: v in H.vertices ==> v in AsMap(x.fn)
    ensures ImageOf(H, x.fn, x.mapOnInputSubGraph)
    ensures exists i, h :: 0 <= i < |roots| && h in H.vertices && Supports(H, h, Remaining(G, roots, i), roots[i])
    ensures Connected(H)
  {
    var i :| 0 <= i < |roots| && SeededAt(H, G, Remaining(G, roots, i), roots[i], x);
    SeededFacts(H, G, Remaining(G, roots, i), roots[i], x);
    SeededConnected(H, G, Remaining(G, roots, i), roots[i], x);
  }

  /** A result seeded at g was grown from one query vertex to all of them along query edges,
      so the query graph is connected. */
  lemma SeededConnected(H: Graph, G0: Graph, clone: Graph, g: string, x: Mapping)
    requires WellFormed(H) && SeededAt(H, G0, clone, g, x)
    ensures Connected(H)
  {
    var h :| h in H.vertices && Supports(H, h, clone, g) && Extends(H, G0, clone, [(h, g)], x);
    assert Completes(H, [(h, g)], x.fn) && GrowsFrom(H, G0, clone, x.fn, 1);
    GrownConnected(H, G0, clone, x.fn);
  }

  /** The outer foreach over the roots: each root is tried against every query vertex on the
      clone, then removed from it. The clone ends up without the roots, and everything the
      buckets gained was found from a root. */
  method WalkRoots(H: Graph, G: Graph, roots: seq<string>, clone0: Graph, caches: MemoCaches)
    returns (keys: seq<string>, buckets: Buckets, clone: Graph, ghost found: seq<Mapping>)
    requires WellFormed(H) && WellFormed(G) && Distinct(roots)
    requires clone0 == Clone(G) && caches.Valid(H, G, clone0)
    modifies caches
    ensures clone == Remaining(G, roots, |roots|)
    ensures BucketsOk(keys, buckets) && GainedOnly(map[], buckets, found)
    ensures forall x {:trigger Found(H, G, roots, x)} :: x in found ==> Found(H, G, roots, x)
    ensures Connected(H) ==>
              forall j, h, phi :: 0 <= j < |roots| && RootedAt(H, Remaining(G, roots, j), h, roots[j], phi) ==> Holds(buckets, phi)
  {
    CloneSpec(G);
    clone := clone0;
    keys, buckets, found := [], map[], [];
    assert roots[..0] == [];
    for i := 0 to |roots|
      invariant clone == Remaining(G, roots, i)
      invariant WellFormed(clone) && EdgesSubset(clone, G)
      invariant caches.Valid(H, G, clone)
      invariant BucketsOk(keys, buckets)
      invariant GainedOnly(map[], buckets, found)
      invariant forall x {:trigger Found(H, G, roots, x)} :: x in found ==> Found(H, G, roots, x)
      invariant Connected(H) ==>
                  forall j, h, phi :: 0 <= j < i && RootedAt(H, Remaining(G, roots, j), h, roots[j], phi) ==> Holds(buckets, phi)
    {
      var g := roots[i];
      ghost var added;
      ghost var before := buckets;
      keys, buckets, added := TryRoot(g, H, clone, caches, G, keys, buckets);
      GainedOnlyTrans(map[], before, buckets, found, added);
      HoldsGrows(before, buckets);
      SeededIsFound(H, G, roots, i, added);
      found := found + added;
      RootStillPresent(G, roots, i);
      RemoveVertexWellFormed(clone, g);
      ValidShrinks(caches, H, G, clone, RemoveVertex(clone, g));
      clone := RemoveVertex(clone, g);
    }
  }

  /** The final foreach: the buckets' lists appended in key order. */
  method Concatenate(keys: seq<string>, buckets: Buckets) returns (toReturn: seq<Mapping>)
    requires forall k :: k in keys ==> k in buckets
    ensures toReturn == Flatten(keys, buckets)
  {
    toReturn := [];
    for k := 0 to |keys|
      invariant toReturn == Flatten(keys[..k], buckets)
    {
      assert keys[..k + 1][..k] == keys[..k];
      toReturn := toReturn + buckets[keys[k]];
    }
    assert keys[..|keys|] == keys;
  }

  /** Algorithm2(queryGraph, inputGraph, numberOfSamples). The roots are the degree sequence of
      the caller's graph G for the sample count; the clone ends up without any of them. Every
      result was found from a root g and a query vertex h that g supported on the clone as it
      stood then. The list is the buckets' concatenation: no bucket holds two equal mappings
      and each mapping sits under its last value. */
  method Algorithm2(H: Graph, G: Graph, numberOfSamples: int)
    returns (toReturn: seq<Mapping>, ghost roots: seq<string>, ghost finalClone: Graph,
             ghost keys: seq<string>, ghost buckets: Buckets)
    requires WellFormed(H) && WellFormed(G)
    ensures roots == GetDegreeSequence(G, SampleCount(numberOfSamples, |G.vertices|)) && Distinct(roots)
    ensures finalClone == Remaining(G, roots, |roots|) && EdgesSubset(finalClone, G)
    ensures forall v :: v in finalClone.vertices <==> v in G.vertices && Degree(G, v) > 0 && v !in roots
    ensures BucketsOk(keys, buckets) && toReturn == Flatten(keys, buckets)
    ensures |toReturn| == TotalSize(keys, buckets)
    ensures forall x {:trigger Found(H, G, roots, x)} :: x in toReturn ==> Found(H, G, roots, x)
    ensures forall x :: x in toReturn ==>
              && |x.fn| == |H.vertices| && Injective(x.fn)
              && (forall v :: v in H.vertices ==> v in AsMap(x.fn))
              && ImageOf(H, x.fn, x.mapOnInputSubGraph)
    ensures NoTwoSameWithin(toReturn)
    ensures Connected(H) ==>
              forall i, h, phi :: 0 <= i < |roots| && RootedAt(H, Remaining(G, roots, i), h, roots[i], phi) ==>
                exists y :: y in toReturn && AsMap(y.fn) == phi
    ensures !Connected(H) ==> toReturn == []
  {
    var samples := SampleCount(numberOfSamples, |G.vertices|);
    var inputGraphClone := Clone(G);
    var caches := new MemoCaches();
    var degreeSequence := GetDegreeSequence(G, samples);
    assert Distinct(degreeSequence) by { GetDegreeSequenceSpec(G, samples); }
    roots := degreeSequence;
    var theKeys, theMappings, clone, found := WalkRoots(H, G, degreeSequence, inputGraphClone, caches);
    finalClone := clone;
    FinalCloneSpec(G, roots);
    toReturn := Concatenate(theKeys, theMappings);
    keys, buckets := theKeys, theMappings;
    FlattenSize(keys, buckets);
    FlattenFound(H, G, roots, keys, buckets, found);
    FlattenNoTwoSame(keys, buckets);
    FlattenHolds(keys, buckets);
    Algorithm2Results(H, G, roots, toReturn);
  }

  /** Once every root is removed, the clone holds the vertices of G that have an edge and are
      not roots, and only edges of G. */
  lemma FinalCloneSpec(G: Graph, roots: seq<string>)
    requires WellFormed(G)
    ensures EdgesSubset(Remaining(G, roots, |roots|), G)
    ensures forall v :: v in Remaining(G, roots, |roots|).vertices <==> v in G.vertices && Degree(G, v) > 0 && v !in roots
  {
    CloneSpec(G);
    RemoveAllSpec(Clone(G), roots);
    assert roots[..|roots|] == roots;
  }

  /** Every result of Algorithm2 is total over the query vertices, injective and maps every
      query edge into its MapOnInputSubGraph; and a non-empty result needs some root that
      supported some query vertex on the clone as it stood then. */
  lemma Algorithm2Results(H: Graph, G: Graph, roots: seq<string>, toReturn: seq<Mapping>)
    requires WellFormed(H) && forall x :: x in toReturn ==> Found(H, G, roots, x)
    ensures forall x :: x in toReturn ==>
              && |x.fn| == |H.vertices| && Injective(x.fn)
              && (forall v :: v in H.vertices ==> v in AsMap(x.fn))
              && ImageOf(H, x.fn, x.mapOnInputSubGraph)
    ensures toReturn != [] ==>
              exists i, h :: 0 <= i < |roots| && h in H.vertices && Supports(H, h, Remaining(G, roots, i), roots[i])
    ensures toReturn != [] ==> Connected(H)
  {
    forall x | x in toReturn
      ensures && |x.fn| == |H.vertices| && Injective(x.fn)
              && (forall v :: v in H.vertices ==> v in AsMap(x.fn))
              && ImageOf(H, x.fn, x.mapOnInputSubGraph)
    {
      FoundFacts(H, G, roots, x);
    }
    if toReturn != [] {
      assert toReturn[0] in toReturn;
      FoundFacts(H, G, roots, toReturn[0]);
    }
  }
}
