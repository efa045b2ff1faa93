/**
 Sequence helpers shared by the model: order-preserving selection, the
 position of a first occurrence, and freedom from duplicates.
 */
module Seqs {

  /** The elements of `xs` that satisfy `p`, in their original order. */
  function Filter<T(!new)>(xs: seq<T>, p: T -> bool): (r: seq<T>)
    ensures |r| <= |xs|
    ensures forall y :: y in r <==> y in xs && p(y)
  {
    if xs == [] then []
    else
      var init := Filter(xs[..|xs| - 1], p);
      if p(xs[|xs| - 1]) then init + [xs[|xs| - 1]] else init
  }

  /** Selecting from a sequence extended by one element. */
  lemma FilterSnoc<T(!new)>(xs: seq<T>, x: T, p: T -> bool)
    ensures Filter(xs + [x], p) == if p(x) then Filter(xs, p) + [x] else Filter(xs, p)
  {
    assert (xs + [x])[..|xs|] == xs;
  }

  /** Every copy of a selected element is kept, and nothing else. */
  lemma {:induction false} FilterCount<T(!new)>(xs: seq<T>, p: T -> bool, y: T)
    ensures multiset(Filter(xs, p))[y] == if p(y) then multiset(xs)[y] else 0
  {
    if xs != [] {
      var init, x := xs[..|xs| - 1], xs[|xs| - 1];
      assert xs == init + [x];
      FilterSnoc(init, x, p);
      FilterCount(init, p, y);
    }
  }

  /** Selection keeps the relative order of the elements it keeps. */
  lemma {:induction false} FilterOrder<T(!new)>(xs: seq<T>, p: T -> bool, a: nat, b: nat)
    requires a < b < |Filter(xs, p)|
    ensures exists i, j :: 0 <= i < j < |xs| && xs[i] == Filter(xs, p)[a] && xs[j] == Filter(xs, p)[b]
  {
    var init, x := xs[..|xs| - 1], xs[|xs| - 1];
    assert xs == init + [x];
    FilterSnoc(init, x, p);
    var r, ri := Filter(xs, p), Filter(init, p);
    if p(x) && b == |ri| {
      assert r[a] == ri[a] && r[a] in init;
      var i :| 0 <= i < |init| && init[i] == r[a];
      assert xs[i] == r[a] && xs[|xs| - 1] == r[b];
    } else {
      assert b < |ri| && r[a] == ri[a] && r[b] == ri[b];
      FilterOrder(init, p, a, b);
      var i, j :| 0 <= i < j < |init| && init[i] == ri[a] && init[j] == ri[b];
      assert xs[i] == r[a] && xs[j] == r[b];
    }
  }

  /** Nothing is selected when no element satisfies `p`. */
  lemma {:induction false} FilterNone<T(!new)>(xs: seq<T>, p: T -> bool)
    requires forall y :: y in xs ==> !p(y)
    ensures Filter(xs, p) == []
  {
    if xs != [] {
      var init := xs[..|xs| - 1];
      forall y | y in init ensures !p(y) {
        var k :| 0 <= k < |init| && init[k] == y;
        assert xs[k] == y;
      }
      FilterNone(init, p);
    }
  }

  /** Position `i` is the only one whose element satisfies `p`. */
  ghost predicate OnlyAt<T>(xs: seq<T>, p: T -> bool, i: int)
  {
    0 <= i < |xs| && p(xs[i]) && forall j :: 0 <= j < |xs| && j != i ==> !p(xs[j])
  }

  /** If only one position satisfies `p`, selection yields just its element. */
  lemma {:induction false} FilterOnlyAt<T(!new)>(xs: seq<T>, p: T -> bool, i: int)
    requires OnlyAt(xs, p, i)
    ensures Filter(xs, p) == [xs[i]]
  {
    var init, x, n := xs[..|xs| - 1], xs[|xs| - 1], |xs| - 1;
    assert xs == init + [x];
    FilterSnoc(init, x, p);
    if i == n {
      forall y | y in init ensures !p(y) {
        var k :| 0 <= k < |init| && init[k] == y;
        assert xs[k] == y;
      }
      FilterNone(init, p);
    } else {
      assert !p(xs[n]);
      forall j | 0 <= j < |init| && j != i ensures !p(init[j]) {
        assert init[j] == xs[j];
      }
      assert init[i] == xs[i];
      FilterOnlyAt(init, p, i);
    }
  }

  /** If selection yields one element, exactly one position satisfies `p`. */
  lemma {:induction false} FilterSingleton<T(!new)>(xs: seq<T>, p: T -> bool)
    requires |Filter(xs, p)| == 1
    ensures exists i :: OnlyAt(xs, p, i) && xs[i] == Filter(xs, p)[0]
  {
    var init, x, n := xs[..|xs| - 1], xs[|xs| - 1], |xs| - 1;
    assert xs == init + [x];
    FilterSnoc(init, x, p);
    if p(x) {
      assert Filter(init, p) == [];
      forall j | 0 <= j < |xs| && j != n ensures !p(xs[j]) {
        assert xs[j] == init[j] && init[j] in init;
      }
      assert OnlyAt(xs, p, n);
    } else {
      FilterSingleton(init, p);
      var i :| OnlyAt(init, p, i) && init[i] == Filter(init, p)[0];
      forall j | 0 <= j < |xs| && j != i ensures !p(xs[j]) {
        if j < n { assert xs[j] == init[j]; }
      }
      assert xs[i] == init[i];
      assert OnlyAt(xs, p, i);
    }
  }

  /** No element occurs twice. */
  predicate NoDuplicates<T(==)>(xs: seq<T>)
  {
    forall i, j :: 0 <= i < j < |xs| ==> xs[i] != xs[j]
  }

  /** In a sequence without duplicates each element occurs once. */
  lemma {:induction false} DistinctCount<T>(xs: seq<T>, x: T)
    requires NoDuplicates(xs) && x in xs
    ensures multiset(xs)[x] == 1
  {
    var init, y := xs[..|xs| - 1], xs[|xs| - 1];
    assert xs == init + [y];
    assert NoDuplicates(init);
    if x == y {
      assert x !in init;
    } else {
      DistinctCount(init, x);
    }
  }

  /** The position of the first occurrence of `x` in `xs`. */
  function FirstIndex<T(==)>(xs: seq<T>, x: T): (k: nat)
    requires x in xs
    ensures k < |xs| && xs[k] == x && x !in xs[..k]
  {
    if xs[0] == x then 0
    else
      var k := FirstIndex(xs[1..], x);
      assert xs[..k + 1] == [xs[0]] + xs[1..][..k];
      k + 1
  }

  /** A position holding `x` with no earlier `x` is the first index of `x`. */
  lemma FirstIndexAt<T>(xs: seq<T>, j: nat)
    requires j < |xs| && xs[j] !in xs[..j]
    ensures FirstIndex(xs, xs[j]) == j
  {
  }
}
