/**
 * Orders and sorting shared by the optimisers: the lexicographic order of
 * std::vector's operator< and a sort by a strict total order (for such an
 * order the sorted permutation is unique, so std::sort's result is the
 * one computed here).
 */
module Sorting {

  /** less is irreflexive, transitive and total on distinct values. */
  ghost predicate StrictTotalOrder<T(!new)>(less: (T, T) -> bool)
  {
    && (forall a :: !less(a, a))
    && (forall a, b, c :: less(a, b) && less(b, c) ==> less(a, c))
    && (forall a, b :: a != b ==> less(a, b) || less(b, a))
  }

  /** No later element is smaller than an earlier one. */
  ghost predicate SortedBy<T>(xs: seq<T>, less: (T, T) -> bool)
  {
    forall i, j :: 0 <= i < j < |xs| ==> !less(xs[j], xs[i])
  }

  ghost predicate Distinct<T>(xs: seq<T>)
  {
    forall i, j :: 0 <= i < j < |xs| ==> xs[i] != xs[j]
  }

  function IntLess(x: int, y: int): bool { x < y }
  function RealLess(x: real, y: real): bool { x < y }

  /** std::vector's operator<: the first difference decides, and a proper prefix is smaller. */
  function LexLess<T>(a: seq<T>, b: seq<T>, less: (T, T) -> bool): bool
  {
    if |b| == 0 then false
    else if |a| == 0 then true
    else if less(a[0], b[0]) then true
    else if less(b[0], a[0]) then false
    else LexLess(a[1..], b[1..], less)
  }

  lemma NumberOrders()
    ensures StrictTotalOrder(IntLess) && StrictTotalOrder(RealLess)
  {}

  lemma {:induction false} LexIrreflexive<T(!new)>(a: seq<T>, less: (T, T) -> bool)
    requires StrictTotalOrder(less)
    ensures !LexLess(a, a, less)
  {
    if |a| > 0 {
      LexIrreflexive(a[1..], less);
    }
  }

  lemma {:induction false} LexTransitive<T(!new)>(a: seq<T>, b: seq<T>, c: seq<T>, less: (T, T) -> bool)
    requires StrictTotalOrder(less)
    requires LexLess(a, b, less) && LexLess(b, c, less)
    ensures LexLess(a, c, less)
  {
    if |a| > 0 && |b| > 0 && |c| > 0 && !less(a[0], b[0]) && !less(b[0], c[0]) {
      assert a[0] == b[0] && b[0] == c[0];
      LexTransitive(a[1..], b[1..], c[1..], less);
    }
  }

  lemma {:induction false} LexTotal<T(!new)>(a: seq<T>, b: seq<T>, less: (T, T) -> bool)
    requires StrictTotalOrder(less)
    requires a != b
    ensures LexLess(a, b, less) || LexLess(b, a, less)
  {
    if |a| > 0 && |b| > 0 && !less(a[0], b[0]) && !less(b[0], a[0]) {
      assert a[0] == b[0];
      assert a == [a[0]] + a[1..] && b == [b[0]] + b[1..];
      LexTotal(a[1..], b[1..], less);
    }
  }

  /** The lexicographic extension of a strict total order is one. */
  lemma LexIsStrictTotalOrder<T(!new)>(less: (T, T) -> bool)
    requires StrictTotalOrder(less)
    ensures StrictTotalOrder((a: seq<T>, b: seq<T>) => LexLess(a, b, less))
  {
    forall a: seq<T>
      ensures !LexLess(a, a, less)
    {
      LexIrreflexive(a, less);
    }
    forall a: seq<T>, b: seq<T>, c: seq<T> | LexLess(a, b, less) && LexLess(b, c, less)
      ensures LexLess(a, c, less)
    {
      LexTransitive(a, b, c, less);
    }
    forall a: seq<T>, b: seq<T> | a != b
      ensures LexLess(a, b, less) || LexLess(b, a, less)
    {
      LexTotal(a, b, less);
    }
  }

  /** Inserting x at index k of a sorted sequence, after every element not above it, keeps it sorted. */
  lemma InsertSorted<T(!new)>(s: seq<T>, x: T, k: nat, less: (T, T) -> bool)
    requires StrictTotalOrder(less) && SortedBy(s, less)
    requires k <= |s| && (forall i :: 0 <= i < k ==> !less(x, s[i])) && (k < |s| ==> less(x, s[k]))
    ensures SortedBy(s[..k] + [x] + s[k..], less)
  {
    var r := s[..k] + [x] + s[k..];
    forall i, j | 0 <= i < j < |r|
      ensures !less(r[j], r[i])
    {
      if j == k {
        assert r[i] == s[i];
      } else if i == k {
        assert r[j] == s[j - 1];
        if j - 1 > k {
          assert !less(s[j - 1], s[k]);
        }
      } else {
        assert r[i] == s[if i < k then i else i - 1];
        assert r[j] == s[if j < k then j else j - 1];
      }
    }
  }

  /** One step of insertion sort: place x after the elements not above it. */
  method InsertBy<T(!new)>(s: seq<T>, x: T, less: (T, T) -> bool) returns (r: seq<T>)
    requires StrictTotalOrder(less) && SortedBy(s, less)
    ensures SortedBy(r, less)
    ensures multiset(r) == multiset(s) + multiset{x}
    ensures x !in s && Distinct(s) ==> Distinct(r)
  {
    var k := 0;
    while k < |s| && !less(x, s[k])
      invariant 0 <= k <= |s|
      invariant forall i :: 0 <= i < k ==> !less(x, s[i])
    {
      k := k + 1;
    }
    InsertSorted(s, x, k, less);
    InsertDistinct(s, x, k);
    r := s[..k] + [x] + s[k..];
  }

  /** Splicing x into s keeps every element of s and adds x; a new x keeps a list without repeats free of them. */
  lemma InsertDistinct<T>(s: seq<T>, x: T, k: nat)
    requires k <= |s|
    ensures multiset(s[..k] + [x] + s[k..]) == multiset(s) + multiset{x}
    ensures x !in s && Distinct(s) ==> Distinct(s[..k] + [x] + s[k..])
  {
    var r := s[..k] + [x] + s[k..];
    assert s == s[..k] + s[k..];
    if x !in s && Distinct(s) {
      forall i, j | 0 <= i < j < |r|
        ensures r[i] != r[j]
      {
        if i != k && j != k {
          assert r[i] == s[if i < k then i else i - 1];
          assert r[j] == s[if j < k then j else j - 1];
        }
      }
    }
  }

  /** Insertion sort: the sorted permutation of xs. */
  method SortBy<T(!new)>(xs: seq<T>, less: (T, T) -> bool) returns (r: seq<T>)
    requires StrictTotalOrder(less)
    ensures SortedBy(r, less)
    ensures multiset(r) == multiset(xs)
    ensures Distinct(xs) ==> Distinct(r)
  {
    r := [];
    for i := 0 to |xs|
      invariant SortedBy(r, less)
      invariant multiset(r) == multiset(xs[..i])
      invariant Distinct(xs) ==> Distinct(r)
    {
      assert xs[..i + 1] == xs[..i] + [xs[i]];
      if Distinct(xs) {
        assert xs[i] !in multiset(xs[..i]);
      }
      r := InsertBy(r, xs[i], less);
    }
    assert xs[..|xs|] == xs;
  }
}
