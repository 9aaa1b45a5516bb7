/** The mapping entities of the engine: a partial map f from query-graph vertices (keys, the
    domain) to input-graph vertices (values, the range), kept as the entries of a
    Dictionary<string, string> in insertion order, and the Mapping result record built from it. */
module Mappings {
  import opened Collections
  import opened Graphs

  type PartialMap = seq<(string, string)>

  /** Keys.ToArray(): the domain in insertion order. */
  function Keys(f: PartialMap): seq<string>
  {
    seq(|f|, i requires 0 <= i < |f| => f[i].0)
  }

  /** Values.ToArray(): the range in insertion order. */
  function Values(f: PartialMap): seq<string>
  {
    seq(|f|, i requires 0 <= i < |f| => f[i].1)
  }

  /** A dictionary never holds a key twice. */
  predicate KeysDistinct(f: PartialMap)
  {
    Distinct(Keys(f))
  }

  /** Distinct query vertices go to distinct input vertices. */
  predicate Injective(f: PartialMap)
  {
    Distinct(Values(f))
  }

  /** The function the dictionary denotes; on a repeated key the later entry wins. */
  function AsMap(f: PartialMap): (m: map<string, string>)
    ensures m.Keys == SetOf(Keys(f))
  {
    if f == [] then map[]
    else
      var p := f[..|f| - 1];
      assert Keys(f) == Keys(p) + [f[|f| - 1].0];
      AsMap(p)[f[|f| - 1].0 := f[|f| - 1].1]
  }

  /** With distinct keys every entry is what the function gives for its key. */
  lemma {:induction false} AsMapAt(f: PartialMap, i: nat)
    requires KeysDistinct(f) && i < |f|
    ensures f[i].0 in AsMap(f) && AsMap(f)[f[i].0] == f[i].1
  {
    var p := f[..|f| - 1];
    if i < |f| - 1 {
      assert Keys(p) == Keys(f)[..|f| - 1];
      assert f[i].0 != f[|f| - 1].0 by { assert Keys(f)[i] != Keys(f)[|f| - 1]; }
      assert p[i] == f[i];
      AsMapAt(p, i);
    }
  }

  /** The indexer f[k] := v: replaces the value of an existing key in place, otherwise appends. */
  function Put(f: PartialMap, k: string, v: string): (r: PartialMap)
    ensures k !in Keys(f) ==> r == f + [(k, v)]
  {
    if f == [] then [(k, v)]
    else if f[0].0 == k then assert Keys(f)[0] == k; [(k, v)] + f[1..]
    else
      assert k !in Keys(f) ==> k !in Keys(f[1..]) by {
        forall j | 0 <= j < |f[1..]| ensures Keys(f[1..])[j] == Keys(f)[j + 1] { }
      }
      [f[0]] + Put(f[1..], k, v)
  }

  /** A complete match: the map, the images of the query edges ("MapOnInputSubGraph") and the
      subgraph of the input graph induced on the mapped vertices ("InputSubGraph"). The field
      fn is the source's Function. */
  datatype Mapping = Mapping(fn: PartialMap, mapOnInputSubGraph: Graph, inputSubGraph: Graph)

  /** Mapping.Equals: the two maps are the same function. */
  predicate SameFunction(a: Mapping, b: Mapping)
  {
    AsMap(a.fn) == AsMap(b.fn)
  }

  /** List<Mapping>.Find(x => x.Equals(m)): the first mapping in xs denoting the same function. */
  function FindSameFunction(xs: seq<Mapping>, m: Mapping): (r: Option<Mapping>)
    ensures r.Some? ==> r.value in xs && SameFunction(r.value, m)
    ensures r.None? <==> forall x :: x in xs ==> !SameFunction(x, m)
  {
    if xs == [] then None
    else if SameFunction(xs[0], m) then Some(xs[0])
    else FindSameFunction(xs[1..], m)
  }

  /** No two mappings of xs denote the same function. */
  ghost predicate NoTwoSame(xs: seq<Mapping>)
  {
    forall i, j :: 0 <= i < j < |xs| ==> !SameFunction(xs[i], xs[j])
  }

  /** Function.Last().Value: the input vertex of the most recently inserted entry. */
  function LastValue(m: Mapping): string
    requires |m.fn| > 0
  {
    m.fn[|m.fn| - 1].1
  }
}
