/**
 * `np.array_split(rows, sections)` for an integer number of sections: the
 * rows are cut into `sections` contiguous slices whose sizes are
 * `n / sections + 1` for the first `n % sections` slices and `n / sections`
 * for the rest. Nothing clamps `sections` to the row count, so with more
 * sections than rows the trailing slices are empty.
 */
module Partition {
  import opened Wrappers

  datatype Error = ValueError(msg: string)

  /** The size of slice `i` when each slice gets `each` rows and the first
      `extras` slices one more (numpy's `divmod(n, sections)`). */
  function Size(each: nat, extras: nat, i: nat): nat
  {
    if i < extras then each + 1 else each
  }

  /** The cumulative sum of the first `i` sizes. */
  function Start(each: nat, extras: nat, i: nat): nat
    decreases i
  {
    if i == 0 then 0 else Start(each, extras, i - 1) + Size(each, extras, i - 1)
  }

  lemma MulStep(i: nat, q: nat)
    ensures (i + 1) * q == i * q + q
  {
  }

  /** The cumulative sum in closed form. */
  lemma {:induction false} StartClosed(each: nat, extras: nat, i: nat)
    ensures Start(each, extras, i) == i * each + (if i < extras then i else extras)
  {
    if i > 0 {
      StartClosed(each, extras, i - 1);
      MulStep(i - 1, each);
    }
  }

  lemma {:induction false} StartMonotone(each: nat, extras: nat, i: nat, j: nat)
    requires i <= j
    ensures Start(each, extras, i) <= Start(each, extras, j)
  {
    if i < j {
      StartMonotone(each, extras, i, j - 1);
    }
  }

  /** The sizes of all `p` slices add up to the row count. */
  lemma SplitPointsEnd(n: nat, p: nat)
    requires p > 0
    ensures Start(n / p, n % p, p) == n
  {
    StartClosed(n / p, n % p, p);
  }

  /** Division point `i` of `n` rows cut into `p` sections: where slice `i`
      starts and slice `i - 1` ends. It never passes the last row, and the
      last point is the row count. */
  function Point(n: nat, p: nat, i: nat): (r: nat)
    requires p > 0 && i <= p
    ensures r <= n
    ensures i == p ==> r == n
  {
    SplitPointsEnd(n, p);
    StartMonotone(n / p, n % p, i, p);
    Start(n / p, n % p, i)
  }

  /** The ValueError numpy raises for a non-positive section count. */
  const SectionsError: Error := ValueError("number sections must be larger than 0.")

  /** `np.array_split(xs, sections)`. */
  function ArraySplit<T>(xs: seq<T>, sections: int): (r: Result<seq<seq<T>>, Error>)
    ensures r.Failure? <==> sections <= 0
    ensures r.Failure? ==> r.error == SectionsError
  {
    if sections <= 0 then Failure(SectionsError)
    else
      var n := |xs|;
      Success(seq(sections, i requires 0 <= i < sections =>
        StartMonotone(n / sections, n % sections, i, i + 1);
        xs[Point(n, sections, i)..Point(n, sections, i + 1)]))
  }

  /** The slices one after the other. */
  function Concat<T>(parts: seq<seq<T>>): seq<T>
  {
    if |parts| == 0 then [] else Concat(parts[..|parts| - 1]) + parts[|parts| - 1]
  }

  /** Slices cut from `xs` at ascending points starting at 0, one after
      the other, give back `xs` up to the last point used. */
  lemma {:induction false} ConcatCuts<T>(xs: seq<T>, cuts: seq<nat>, parts: seq<seq<T>>, k: nat)
    requires |cuts| == |parts| + 1 && cuts[0] == 0 && k <= |parts|
    requires forall i :: 0 <= i <= |parts| ==> cuts[i] <= |xs|
    requires forall i :: 0 <= i < |parts| ==> cuts[i] <= cuts[i + 1] && parts[i] == xs[cuts[i]..cuts[i + 1]]
    ensures Concat(parts[..k]) == xs[..cuts[k]]
  {
    if k > 0 {
      ConcatCuts(xs, cuts, parts, k - 1);
      var init := parts[..k];
      assert init[..k - 1] == parts[..k - 1];
      assert Concat(init) == Concat(init[..k - 1]) + init[k - 1];
      PrefixThenSlice(xs, cuts[k - 1], cuts[k]);
    }
  }

  lemma PrefixThenSlice<T>(xs: seq<T>, a: nat, b: nat)
    requires a <= b <= |xs|
    ensures xs[..a] + xs[a..b] == xs[..b]
  {
  }

  /** The slices, in order, are exactly the input rows: no row lost,
      repeated or moved. */
  lemma ArraySplitConcat<T>(xs: seq<T>, p: int)
    requires p > 0
    ensures Concat(ArraySplit(xs, p).value) == xs
  {
    var parts := ArraySplit(xs, p).value;
    var cuts := seq(p + 1, i requires 0 <= i <= p => Point(|xs|, p, i));
    forall i | 0 <= i < p
      ensures cuts[i] <= cuts[i + 1] && parts[i] == xs[cuts[i]..cuts[i + 1]]
    {
      SliceAt(xs, p, i);
    }
    ConcatCuts(xs, cuts, parts, p);
    assert parts[..p] == parts;
  }

  /** Slice `i` lies between division points `i` and `i + 1`. */
  lemma SliceAt<T>(xs: seq<T>, p: int, i: nat)
    requires 0 <= i < p
    ensures Point(|xs|, p, i) <= Point(|xs|, p, i + 1)
    ensures ArraySplit(xs, p).value[i] == xs[Point(|xs|, p, i)..Point(|xs|, p, i + 1)]
  {
    StartMonotone(|xs| / p, |xs| % p, i, i + 1);
  }

  /** There are `p` slices, slice `i` has numpy's size for it, and so the
      sizes differ by at most one with the larger ones first. */
  lemma ArraySplitSizes<T>(xs: seq<T>, p: int)
    requires p > 0
    ensures |ArraySplit(xs, p).value| == p
    ensures forall i :: 0 <= i < p ==>
      |ArraySplit(xs, p).value[i]| == if i < |xs| % p then |xs| / p + 1 else |xs| / p
    ensures forall i, j :: 0 <= i < j < p ==>
      |ArraySplit(xs, p).value[j]| <= |ArraySplit(xs, p).value[i]| <= |ArraySplit(xs, p).value[j]| + 1
  {
    var parts := ArraySplit(xs, p).value;
    forall i | 0 <= i < p
      ensures |parts[i]| == if i < |xs| % p then |xs| / p + 1 else |xs| / p
    {
      StartMonotone(|xs| / p, |xs| % p, i, i + 1);
    }
  }

  /** More sections than rows: slice `i` is the single row `i` for each of
      the first `n` slices and every slice after those is empty. */
  lemma ArraySplitMoreSectionsThanRows<T>(xs: seq<T>, p: int)
    requires p > |xs|
    ensures forall i :: 0 <= i < |xs| ==> ArraySplit(xs, p).value[i] == [xs[i]]
    ensures forall i :: |xs| <= i < p ==> ArraySplit(xs, p).value[i] == []
  {
    var n := |xs|;
    SmallDivMod(n, p);
    forall i | 0 <= i <= p ensures Point(n, p, i) == if i < n then i else n {
      StartClosed(0, n, i);
    }
    var parts := ArraySplit(xs, p).value;
    forall i | 0 <= i < n ensures parts[i] == [xs[i]] {
      assert parts[i] == xs[i..i + 1];
    }
  }

  lemma SmallDivMod(n: nat, p: nat)
    requires n < p
    ensures n / p == 0 && n % p == n
  {
  }
}
