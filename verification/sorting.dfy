/** Sorting by a caller-supplied order, the shape of the store's `.sort({...})`
    on a query result. The store leaves the order of equal keys unspecified;
    `SortBy` is one such order and its contract promises only what the store
    promises: sorted, and a permutation of its input. */
module Sorting {

  /** Any two elements are comparable. */
  ghost predicate Total<T(!new)>(le: (T, T) -> bool) {
    forall x, y :: le(x, y) || le(y, x)
  }

  ghost predicate Transitive<T(!new)>(le: (T, T) -> bool) {
    forall x, y, z :: le(x, y) && le(y, z) ==> le(x, z)
  }

  /** Every element is ordered before its successor. */
  predicate Sorted<T>(xs: seq<T>, le: (T, T) -> bool) {
    forall i :: 0 < i < |xs| ==> le(xs[i - 1], xs[i])
  }

  predicate Distinct<T(==)>(xs: seq<T>) {
    forall i, j :: 0 <= i < j < |xs| ==> xs[i] != xs[j]
  }

  /** Puts `x` into the sorted `xs` before the first element it precedes. */
  function Insert<T(!new)>(x: T, xs: seq<T>, le: (T, T) -> bool): (r: seq<T>)
    requires Total(le)
    requires Sorted(xs, le)
    ensures Sorted(r, le)
    ensures multiset(r) == multiset(xs) + multiset{x}
    ensures r[0] == x || (xs != [] && r[0] == xs[0])
    ensures Distinct(xs) && x !in xs ==> Distinct(r)
  {
    if xs == [] then [x]
    else if le(x, xs[0]) then
      ConsKeepsOrder(x, xs, le);
      ConsKeepsDistinct(x, xs);
      [x] + xs
    else
      var rest := Insert(x, xs[1..], le);
      assert xs == [xs[0]] + xs[1..];
      ConsKeepsOrder(xs[0], rest, le);
      assert xs[0] !in xs[1..] && xs[0] != x ==> xs[0] !in multiset(rest);
      ConsKeepsDistinct(xs[0], rest);
      [xs[0]] + rest
  }

  lemma ConsKeepsOrder<T>(y: T, xs: seq<T>, le: (T, T) -> bool)
    requires Sorted(xs, le)
    requires xs != [] ==> le(y, xs[0])
    ensures Sorted([y] + xs, le)
  {
    var r := [y] + xs;
    forall i | 0 < i < |r| ensures le(r[i - 1], r[i]) {
      if i > 1 {
        assert r[i - 1] == xs[i - 2] && r[i] == xs[i - 1];
      }
    }
  }

  lemma ConsKeepsDistinct<T>(y: T, xs: seq<T>)
    ensures Distinct(xs) && y !in xs ==> Distinct([y] + xs)
  {
    if Distinct(xs) && y !in xs {
      var r := [y] + xs;
      forall i, j | 0 <= i < j < |r| ensures r[i] != r[j] {
        if i == 0 {
          assert r[j] in xs;
        } else {
          assert r[i] == xs[i - 1] && r[j] == xs[j - 1];
        }
      }
    }
  }

  function SortBy<T(!new)>(xs: seq<T>, le: (T, T) -> bool): (r: seq<T>)
    requires Total(le)
    ensures Sorted(r, le)
    ensures multiset(r) == multiset(xs)
    ensures Distinct(xs) ==> Distinct(r)
  {
    if xs == [] then []
    else
      var rest := SortBy(xs[1..], le);
      assert xs == [xs[0]] + xs[1..];
      assert Distinct(xs) ==> xs[0] !in multiset(rest);
      Insert(xs[0], rest, le)
  }

  /** For a transitive order, a sequence sorted step by step is sorted
      pairwise: each element precedes every later one. */
  lemma {:induction false} SortedPairwise<T(!new)>(xs: seq<T>, le: (T, T) -> bool)
    requires Transitive(le)
    requires Sorted(xs, le)
    ensures forall i, j :: 0 <= i < j < |xs| ==> le(xs[i], xs[j])
  {
    if |xs| > 1 {
      var front := xs[..|xs| - 1];
      assert Sorted(front, le);
      SortedPairwise(front, le);
      forall i, j | 0 <= i < j < |xs| ensures le(xs[i], xs[j]) {
        if j == |xs| - 1 && i < j - 1 {
          assert le(front[i], front[j - 1]);
        }
      }
    }
  }

  /** A permutation has the same elements. */
  lemma SameElements<T>(xs: seq<T>, ys: seq<T>)
    requires multiset(xs) == multiset(ys)
    ensures forall y :: y in ys <==> y in xs
  {
    forall y ensures y in ys <==> y in xs {
      assert y in ys <==> y in multiset(ys);
      assert y in xs <==> y in multiset(xs);
    }
  }
}
