/** Models of the few .NET library operations the matching engine relies on:
    string.IsNullOrWhiteSpace, HashSet<string>.Add (enumerated in insertion order),
    List<string>.Remove (first occurrence), and a list filter. */
module Collections {

  datatype Option<T> = None | Some(value: T)

  predicate Distinct(s: seq<string>)
  {
    forall i, j :: 0 <= i < j < |s| ==> s[i] != s[j]
  }

  function SetOf(s: seq<string>): set<string>
  {
    set x | x in s
  }

  /** char.IsWhiteSpace: the Unicode space, line and paragraph separators, U+0009..U+000D and U+0085. */
  predicate IsWhiteSpace(c: char)
  {
    ('\U{9}' <= c <= '\U{D}') || c == '\U{20}' || c == '\U{85}' || c == '\U{A0}' || c == '\U{1680}'
    || ('\U{2000}' <= c <= '\U{200A}') || c == '\U{2028}' || c == '\U{2029}' || c == '\U{202F}'
    || c == '\U{205F}' || c == '\U{3000}'
  }

  /** string.IsNullOrWhiteSpace for a non-null string: empty, or whitespace only. */
  predicate IsNullOrWhiteSpace(s: string)
  {
    forall i :: 0 <= i < |s| ==> IsWhiteSpace(s[i])
  }

  /** Adds every element of xs, in order, to a HashSet whose enumeration is acc. */
  function AddAll(acc: seq<string>, xs: seq<string>): (r: seq<string>)
    ensures forall x :: x in r <==> x in acc || x in xs
    ensures Distinct(acc) ==> Distinct(r)
    ensures |acc| <= |r| && r[..|acc|] == acc
    decreases |xs|
  {
    if xs == [] then acc
    else AddAll(if xs[0] in acc then acc else acc + [xs[0]], xs[1..])
  }

  /** Adding a concatenation is adding its two parts one after the other. */
  lemma {:induction false} AddAllConcat(acc: seq<string>, xs: seq<string>, ys: seq<string>)
    ensures AddAll(acc, xs + ys) == AddAll(AddAll(acc, xs), ys)
    decreases |xs|
  {
    if xs != [] {
      assert (xs + ys)[0] == xs[0];
      assert (xs + ys)[1..] == xs[1..] + ys;
      AddAllConcat(if xs[0] in acc then acc else acc + [xs[0]], xs[1..], ys);
    } else {
      assert xs + ys == ys;
    }
  }

  /** List<string>.IndexOf: the position of the first occurrence of x. */
  function FirstIndex(s: seq<string>, x: string): (i: nat)
    requires x in s
    ensures i < |s| && s[i] == x && x !in s[..i]
  {
    if s[0] == x then 0
    else
      var i := 1 + FirstIndex(s[1..], x);
      assert s[..i] == [s[0]] + s[1..][..i - 1];
      i
  }

  /** Dropping one position of a sequence without repeats leaves one without repeats. */
  lemma DistinctDrop(s: seq<string>, i: nat)
    requires Distinct(s) && i < |s|
    ensures Distinct(s[..i] + s[i + 1..])
  {
    var r := s[..i] + s[i + 1..];
    forall a, b | 0 <= a < b < |r| ensures r[a] != r[b] {
      var a', b' := if a < i then a else a + 1, if b < i then b else b + 1;
      assert r[a] == s[a'] && r[b] == s[b'];
    }
  }

  /** List<string>.Remove: drops the first occurrence of x, if any. */
  function RemoveFirst(s: seq<string>, x: string): (r: seq<string>)
    ensures x !in s ==> r == s
    ensures x in s ==> |r| == |s| - 1
    ensures forall y :: y in r ==> y in s
    ensures Distinct(s) ==> Distinct(r) && forall y :: y in r <==> y in s && y != x
  {
    if x !in s then s
    else
      var i := FirstIndex(s, x);
      assert s == s[..i] + [x] + s[i + 1..];
      assert Distinct(s) ==> Distinct(s[..i] + s[i + 1..]) && x !in s[..i] + s[i + 1..] by {
        if Distinct(s) {
          DistinctDrop(s, i);
          forall k | 0 <= k < |s| && k != i ensures s[k] != x { }
        }
      }
      s[..i] + s[i + 1..]
  }

  /** When the element at k occurs nowhere before k, removing it removes exactly position k. */
  lemma RemoveFirstAt(s: seq<string>, k: nat)
    requires k < |s| && s[k] !in s[..k]
    ensures RemoveFirst(s, s[k]) == s[..k] + s[k + 1..]
  {
    var i := FirstIndex(s, s[k]);
    assert i == k;
  }

  /** The elements of s that are not in used, in their original order. */
  function Without(s: seq<string>, used: seq<string>): seq<string>
  {
    if s == [] then [] else Without(s[..|s| - 1], used) + (if s[|s| - 1] in used then [] else [s[|s| - 1]])
  }

  /** Without keeps exactly the elements outside used. */
  lemma {:induction false} WithoutSpec(s: seq<string>, used: seq<string>)
    ensures forall x :: x in Without(s, used) <==> x in s && x !in used
  {
    if s != [] {
      var p, x := s[..|s| - 1], s[|s| - 1];
      WithoutSpec(p, used);
      assert s == p + [x];
    }
  }

  /** A sequence has as many distinct elements as entries exactly when it has no repeats. */
  lemma {:induction false} SetOfCard(s: seq<string>)
    ensures |SetOf(s)| <= |s|
    ensures |SetOf(s)| == |s| <==> Distinct(s)
  {
    if s != [] {
      var p, x := s[..|s| - 1], s[|s| - 1];
      assert s == p + [x];
      assert SetOf(s) == SetOf(p) + {x};
      SetOfCard(p);
      if x in p {
        assert SetOf(s) == SetOf(p);
        var k :| 0 <= k < |p| && p[k] == x;
        assert s[k] == s[|s| - 1];
      } else {
        assert Distinct(s) <==> Distinct(p);
      }
    }
  }

  lemma SubsetCard<T>(a: set<T>, b: set<T>)
    requires a <= b
    ensures |a| <= |b|
    ensures a != b ==> |a| < |b|
  {
    assert b == a + (b - a);
    assert a * (b - a) == {};
    if a != b {
      assert !(b <= a);
      var x :| x in b && x !in a;
      assert x in b - a;
    }
  }

  lemma SubsetOfEqualCard<T>(a: set<T>, b: set<T>)
    requires a <= b && |a| == |b|
    ensures a == b
  {
    SubsetCard(a, b);
  }

  /** The prefix as long as the sequence is the sequence. */
  lemma TakeWhole(s: seq<string>, n: nat)
    requires n == |s|
    ensures s[..n] == s
  {
  }

  /** Distinct elements drawn from a distinct universe are no more numerous than it,
      and as numerous only when they are all of it. */
  lemma DistinctWithin(s: seq<string>, u: seq<string>)
    requires Distinct(s) && Distinct(u)
    requires forall x :: x in s ==> x in u
    ensures |s| <= |u|
    ensures |s| == |u| ==> forall x :: x in u ==> x in s
  {
    SetOfCard(s);
    SetOfCard(u);
    SubsetCard(SetOf(s), SetOf(u));
    if |s| == |u| {
      SubsetOfEqualCard(SetOf(s), SetOf(u));
      forall x | x in u ensures x in s { assert x in SetOf(u); }
    }
  }
}
