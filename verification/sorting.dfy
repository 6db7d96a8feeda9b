/**
 * qSort over a QList<quint32>, with either qLess (ascending) or qGreater
 * (descending) as the comparison. qSort itself is library code; it is
 * modelled here by insertion sort, and SortedUnique shows that the choice of
 * algorithm does not matter: a sorted permutation of a list of integers is
 * unique.
 */
module Sorting {
  import opened Word32

  /** The comparison handed to qSort: qGreater when `descending`, qLess otherwise. */
  predicate InOrder(a: int, b: int, descending: bool)
  {
    if descending then a >= b else a <= b
  }

  ghost predicate Sorted(s: seq<U32>, descending: bool)
  {
    forall i, j :: 0 <= i < j < |s| ==> InOrder(s[i], s[j], descending)
  }

  /** Puts `x` in front of the first element it may precede. */
  function Insert(x: U32, s: seq<U32>, descending: bool): (r: seq<U32>)
    ensures |r| == |s| + 1
    ensures multiset(r) == multiset(s) + multiset{x}
    ensures r[0] == x || (s != [] && r[0] == s[0])
    ensures Sorted(s, descending) ==> Sorted(r, descending)
  {
    if s == [] || InOrder(x, s[0], descending) then
      SortedCons(x, s, descending);
      [x] + s
    else
      assert s == [s[0]] + s[1..];
      assert Sorted(s, descending) ==> Sorted(s[1..], descending);
      var rest := Insert(x, s[1..], descending);
      SortedCons(s[0], rest, descending);
      [s[0]] + rest
  }

  /** An element that may precede the head of a sorted list extends it. */
  lemma SortedCons(x: U32, s: seq<U32>, descending: bool)
    ensures Sorted(s, descending) && (s != [] ==> InOrder(x, s[0], descending)) ==> Sorted([x] + s, descending)
  {
    if Sorted(s, descending) && (s != [] ==> InOrder(x, s[0], descending)) {
      var r := [x] + s;
      forall i, j | 0 <= i < j < |r| ensures InOrder(r[i], r[j], descending) {
        if i == 0 && j > 1 {
          assert InOrder(s[0], s[j - 1], descending);
        }
      }
    }
  }

  /** qSort(items.begin(), items.end(), order) */
  function Sort(s: seq<U32>, descending: bool): (r: seq<U32>)
    ensures |r| == |s|
    ensures multiset(r) == multiset(s)
    ensures Sorted(r, descending)
  {
    if s == [] then
      []
    else
      assert s == [s[0]] + s[1..];
      Insert(s[0], Sort(s[1..], descending), descending)
  }

  /** Two sorted permutations of one another are the same list. */
  lemma {:induction false} SortedUnique(a: seq<U32>, b: seq<U32>, descending: bool)
    requires Sorted(a, descending) && Sorted(b, descending)
    requires multiset(a) == multiset(b)
    ensures a == b
    decreases |a|
  {
    assert |a| == |multiset(a)| == |multiset(b)| == |b|;
    if a != [] {
      SameHead(a, b, descending);
      assert a == [a[0]] + a[1..] && b == [b[0]] + b[1..];
      assert multiset(a[1..]) == multiset(b[1..]) by {
        assert multiset(a) == multiset{a[0]} + multiset(a[1..]);
        assert multiset(b) == multiset{b[0]} + multiset(b[1..]);
        assert multiset(a[1..]) == multiset(a) - multiset{a[0]};
        assert multiset(b[1..]) == multiset(b) - multiset{b[0]};
      }
      SortedSplit(a, 1, descending);
      SortedSplit(b, 1, descending);
      SortedUnique(a[1..], b[1..], descending);
    }
  }

  /** Both lists start with the extreme element of their common multiset. */
  lemma SameHead(a: seq<U32>, b: seq<U32>, descending: bool)
    requires Sorted(a, descending) && Sorted(b, descending)
    requires multiset(a) == multiset(b) && a != [] && b != []
    ensures a[0] == b[0]
  {
    assert a[0] in multiset(a) && b[0] in multiset(b);
    var i :| 0 <= i < |b| && b[i] == a[0];
    var j :| 0 <= j < |a| && a[j] == b[0];
    if i > 0 { assert InOrder(b[0], b[i], descending); }
    if j > 0 { assert InOrder(a[0], a[j], descending); }
  }

  /** Sort is pinned down by its contract: any sorted permutation of `s` is Sort(s). */
  lemma SortIs(s: seq<U32>, t: seq<U32>, descending: bool)
    requires Sorted(t, descending) && multiset(t) == multiset(s)
    ensures Sort(s, descending) == t
  {
    SortedUnique(Sort(s, descending), t, descending);
  }

  /** Re-sorting a prefix of a list sorted the same way leaves the list as it is. */
  lemma ResortPrefix(s: seq<U32>, k: nat, descending: bool)
    requires Sorted(s, descending) && k <= |s|
    ensures Sort(s[..k], descending) + s[k..] == s
  {
    SortedSplit(s, k, descending);
    SortIs(s[..k], s[..k], descending);
    assert s[..k] + s[k..] == s;
  }

  /** A prefix of a sorted list is sorted, and so is the matching suffix. */
  lemma SortedSplit(s: seq<U32>, k: nat, descending: bool)
    requires Sorted(s, descending) && k <= |s|
    ensures Sorted(s[..k], descending) && Sorted(s[k..], descending)
  {
  }
}
