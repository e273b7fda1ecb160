/**
 * The threshold locator (find_threshold_index): given the occupancy size of every grid
 * cell and a target row count, find the smallest cell size at which the cells of that
 * size or smaller hold at least the target number of rows.
 */
module Threshold {
  import opened Collections

  /** One entry of `value_counts().sort_index()`: a cell size and how many cells have it. */
  datatype Run = Run(size: nat, freq: nat)

  /** The total number of rows held by cells smaller than c. */
  function WeightBelow(sizes: seq<nat>, c: int): nat
  {
    if sizes == [] then 0
    else (if sizes[0] < c then sizes[0] else 0) + WeightBelow(sizes[1..], c)
  }

  /** The total number of rows held by cells of size at most c. */
  function WeightAtMost(sizes: seq<nat>, c: int): nat
  {
    WeightBelow(sizes, c + 1)
  }

  /** The total number of rows held by all cells. */
  function Total(sizes: seq<nat>): nat
  {
    if sizes == [] then 0 else sizes[0] + Total(sizes[1..])
  }

  /** The number of cells of size x. */
  function Count(sizes: seq<nat>, x: nat): nat
  {
    if sizes == [] then 0 else (if sizes[0] == x then 1 else 0) + Count(sizes[1..], x)
  }

  /** A size that is present is counted at least once. */
  lemma {:induction false} CountPresent(sizes: seq<nat>, x: nat)
    ensures Count(sizes, x) > 0 <==> x in sizes
  {
    if sizes != [] {
      CountPresent(sizes[1..], x);
      assert x in sizes <==> x == sizes[0] || x in sizes[1..];
    }
  }

  /** The smallest size. */
  function MinOf(sizes: seq<nat>): (m: nat)
    requires |sizes| > 0
    ensures m in sizes
    ensures forall x :: x in sizes ==> m <= x
  {
    if |sizes| == 1 then sizes[0]
    else
      var rest := MinOf(sizes[1..]);
      assert forall x :: x in sizes ==> x == sizes[0] || x in sizes[1..];
      if sizes[0] <= rest then sizes[0] else rest
  }

  /** The largest size. */
  function MaxOf(sizes: seq<nat>): (m: nat)
    requires |sizes| > 0
    ensures m in sizes
    ensures forall x :: x in sizes ==> x <= m
  {
    if |sizes| == 1 then sizes[0]
    else
      var rest := MaxOf(sizes[1..]);
      assert forall x :: x in sizes ==> x == sizes[0] || x in sizes[1..];
      if sizes[0] >= rest then sizes[0] else rest
  }

  /** The sizes other than x, in their original order. */
  function Without(sizes: seq<nat>, x: nat): (r: seq<nat>)
    ensures forall y :: y in r <==> y in sizes && y != x
    ensures forall y :: y != x ==> Count(r, y) == Count(sizes, y)
    ensures |r| <= |sizes|
    ensures x in sizes ==> |r| < |sizes|
  {
    if sizes == [] then []
    else
      assert sizes == [sizes[0]] + sizes[1..];
      if sizes[0] == x then Without(sizes[1..], x)
      else [sizes[0]] + Without(sizes[1..], x)
  }

  /** `value_counts().sort_index()`: the distinct sizes, smallest first, each with its number of cells. */
  function Tally(sizes: seq<nat>): seq<Run>
    decreases |sizes|
  {
    if sizes == [] then []
    else
      var m := MinOf(sizes);
      [Run(m, Count(sizes, m))] + Tally(Without(sizes, m))
  }

  /** Every size in the tally is a size of some cell. */
  lemma {:induction false} TallyPresent(sizes: seq<nat>)
    ensures forall i :: 0 <= i < |Tally(sizes)| ==> Tally(sizes)[i].size in sizes
    decreases |sizes|
  {
    if sizes != [] {
      var m := MinOf(sizes);
      var rest := Tally(Without(sizes, m));
      TallyPresent(Without(sizes, m));
      assert Tally(sizes) == [Run(m, Count(sizes, m))] + rest;
    }
  }

  /** The position of a cell size in the tally. */
  lemma {:induction false} TallyIndexOf(sizes: seq<nat>, x: nat) returns (i: nat)
    requires x in sizes
    ensures i < |Tally(sizes)| && Tally(sizes)[i].size == x
    decreases |sizes|
  {
    var m := MinOf(sizes);
    var rest := Tally(Without(sizes, m));
    assert Tally(sizes) == [Run(m, Count(sizes, m))] + rest;
    if x == m {
      i := 0;
    } else {
      var i' := TallyIndexOf(Without(sizes, m), x);
      i := i' + 1;
    }
  }

  /** Some run of the tally has size x. */
  predicate Listed(runs: seq<Run>, x: int)
  {
    exists i :: 0 <= i < |runs| && runs[i].size == x
  }

  /** Every size of some cell is in the tally. */
  lemma TallyComplete(sizes: seq<nat>)
    ensures forall x :: x in sizes ==> Listed(Tally(sizes), x)
  {
    forall x | x in sizes
      ensures Listed(Tally(sizes), x)
    {
      var i := TallyIndexOf(sizes, x);
      assert Tally(sizes)[i].size == x;
    }
  }

  /** The tally lists the sizes in strictly ascending order. */
  lemma {:induction false} TallyAscending(sizes: seq<nat>)
    ensures forall i, j :: 0 <= i < j < |Tally(sizes)| ==> Tally(sizes)[i].size < Tally(sizes)[j].size
    decreases |sizes|
  {
    if sizes != [] {
      var m := MinOf(sizes);
      var rest := Tally(Without(sizes, m));
      TallyAscending(Without(sizes, m));
      TallyPresent(Without(sizes, m));
      var runs := Tally(sizes);
      assert runs == [Run(m, Count(sizes, m))] + rest;
      forall i, j | 0 <= i < j < |runs|
        ensures runs[i].size < runs[j].size
      {
        assert runs[j] == rest[j - 1];
        if i > 0 {
          assert runs[i] == rest[i - 1];
        }
      }
    }
  }

  /** Every run of the tally carries the number of cells of its size, which is positive. */
  lemma {:induction false} TallyCounts(sizes: seq<nat>)
    ensures forall i :: 0 <= i < |Tally(sizes)| ==> Tally(sizes)[i].freq == Count(sizes, Tally(sizes)[i].size) > 0
    decreases |sizes|
  {
    if sizes != [] {
      var m := MinOf(sizes);
      var rest := Tally(Without(sizes, m));
      CountPresent(sizes, m);
      TallyCounts(Without(sizes, m));
      TallyPresent(Without(sizes, m));
      var runs := Tally(sizes);
      assert runs == [Run(m, Count(sizes, m))] + rest;
      forall i | 0 < i < |runs|
        ensures runs[i].freq == Count(sizes, runs[i].size)
      {
        assert runs[i] == rest[i - 1];
      }
    }
  }

  /**
   * The tally lists the distinct sizes in strictly ascending order, each exactly once and
   * with the number of cells that have it; no size is left out and none is invented.
   */
  lemma TallySpec(sizes: seq<nat>)
    ensures var runs := Tally(sizes);
      && (forall i, j :: 0 <= i < j < |runs| ==> runs[i].size < runs[j].size)
      && (forall i :: 0 <= i < |runs| ==> runs[i].freq == Count(sizes, runs[i].size) > 0)
      && (forall x :: x in sizes <==> exists i :: 0 <= i < |runs| && runs[i].size == x)
  {
    TallyAscending(sizes);
    TallyCounts(sizes);
    TallyPresent(sizes);
    TallyComplete(sizes);
  }

  /** The loop of find_threshold_index over the tally, carrying the running total. */
  function Walk(runs: seq<Run>, cumulative: int, threshold: int): Option<nat>
  {
    if runs == [] then None
    else
      var next := cumulative + runs[0].size * runs[0].freq;
      if next >= threshold then Some(runs[0].size)
      else Walk(runs[1..], next, threshold)
  }

  /** Cells no smaller than c contribute nothing below c. */
  lemma {:induction false} NothingBelow(sizes: seq<nat>, c: int)
    requires forall x :: x in sizes ==> c <= x
    ensures WeightBelow(sizes, c) == 0
  {
    if sizes != [] {
      assert sizes[0] in sizes;
      assert forall x :: x in sizes[1..] ==> x in sizes;
      NothingBelow(sizes[1..], c);
    }
  }

  /** One more cell of size m adds m rows. */
  lemma MulSucc(m: nat, k: nat)
    ensures m * (k + 1) == m * k + m
  {
  }

  /** Removing every cell of size m removes exactly m times their number from the weight below c > m. */
  lemma {:induction false} WeightWithout(sizes: seq<nat>, m: nat, c: int)
    ensures WeightBelow(sizes, c) ==
      WeightBelow(Without(sizes, m), c) + (if m < c then m * Count(sizes, m) else 0)
  {
    if sizes != [] {
      var tail := sizes[1..];
      WeightWithout(tail, m, c);
      assert sizes == [sizes[0]] + tail;
      var k: nat := Count(sizes[1..], m);
      if sizes[0] == m {
        assert Count(sizes, m) == k + 1;
        MulSucc(m, k);
      } else {
        assert Count(sizes, m) == k;
        var w := Without(sizes, m);
        assert w == [sizes[0]] + Without(tail, m);
        assert w[1..] == Without(tail, m);
      }
    }
  }

  /** The weight below c never exceeds the total. */
  lemma {:induction false} WeightBelowTotal(sizes: seq<nat>, c: int)
    ensures WeightBelow(sizes, c) <= Total(sizes)
    ensures (forall x :: x in sizes ==> x < c) ==> WeightBelow(sizes, c) == Total(sizes)
  {
    if sizes != [] {
      WeightBelowTotal(sizes[1..], c);
      assert forall x :: x in sizes[1..] ==> x in sizes;
      assert sizes[0] in sizes;
    }
  }

  /**
   * What a walk started with running total `cumulative` over the tally of `sizes` may
   * return: no size, exactly when even the largest present size falls short of the
   * target; otherwise the first present size whose cells and all smaller ones reach it.
   */
  ghost predicate WalkOutcome(sizes: seq<nat>, cumulative: int, threshold: int, r: Option<nat>)
  {
    && (r.None? <==> forall x :: x in sizes ==> cumulative + WeightAtMost(sizes, x) < threshold)
    && (r.Some? ==>
          && r.value in sizes
          && cumulative + WeightAtMost(sizes, r.value) >= threshold
          && (forall x :: x in sizes && x < r.value ==> cumulative + WeightAtMost(sizes, x) < threshold)
          && (cumulative + WeightBelow(sizes, r.value) < threshold || WeightBelow(sizes, r.value) == 0))
  }

  /** The walk over the tally stops exactly where the weights say it should. */
  lemma {:induction false} WalkTally(sizes: seq<nat>, cumulative: int, threshold: int)
    ensures WalkOutcome(sizes, cumulative, threshold, Walk(Tally(sizes), cumulative, threshold))
    decreases |sizes|
  {
    var r := Walk(Tally(sizes), cumulative, threshold);
    if sizes == [] {
      assert r == None;
    } else {
      var m := MinOf(sizes);
      var rest := Without(sizes, m);
      var count := Count(sizes, m);
      var next := cumulative + m * count;
      assert Tally(sizes) == [Run(m, count)] + Tally(rest);
      WalkFirstRun(Tally(sizes), m, count, Tally(rest), cumulative, threshold);
      if next >= threshold {
        assert r == Some(m);
        StopAtSmallest(sizes, cumulative, threshold);
      } else {
        assert r == Walk(Tally(rest), next, threshold);
        WalkTally(rest, next, threshold);
        PassSmallest(sizes, cumulative, threshold, r);
      }
    }
  }

  /** When the smallest size already reaches the target, it is the answer. */
  lemma StopAtSmallest(sizes: seq<nat>, cumulative: int, threshold: int)
    requires sizes != []
    requires cumulative + MinOf(sizes) * Count(sizes, MinOf(sizes)) >= threshold
    ensures WalkOutcome(sizes, cumulative, threshold, Some(MinOf(sizes)))
  {
    SplitAtMin(sizes);
  }

  /**
   * Past the smallest size m, every weight at most x is the rest's plus the rows of the
   * size-m cells.
   */
  lemma ShiftBySmallest(sizes: seq<nat>, m: nat, rest: seq<nat>)
    requires sizes != [] && m == MinOf(sizes) && rest == Without(sizes, m)
    ensures WeightAtMost(sizes, m) == m * Count(sizes, m)
    ensures forall x :: x in rest ==> WeightAtMost(sizes, x) == m * Count(sizes, m) + WeightAtMost(rest, x)
    ensures forall x :: x in sizes <==> x == m || x in rest
    ensures forall x :: x in rest ==> WeightBelow(sizes, x) == WeightBelow(rest, x) + m * Count(sizes, m)
  {
    SplitAtMin(sizes);
    forall x | x in rest
      ensures WeightAtMost(sizes, x) == m * Count(sizes, m) + WeightAtMost(rest, x)
    {
      assert m < x + 1;
    }
  }

  /**
   * When the smallest size m falls short, no size reaches the target exactly when no size
   * of the rest reaches it with the size-m rows added to the running total.
   */
  lemma PassSmallestNone(sizes: seq<nat>, m: nat, rest: seq<nat>, cumulative: int, next: int, threshold: int)
    requires sizes != [] && m == MinOf(sizes) && rest == Without(sizes, m)
    requires next == cumulative + m * Count(sizes, m) < threshold
    ensures (forall x :: x in sizes ==> cumulative + WeightAtMost(sizes, x) < threshold) <==>
      (forall x :: x in rest ==> next + WeightAtMost(rest, x) < threshold)
  {
    ShiftBySmallest(sizes, m, rest);
    if forall x :: x in rest ==> next + WeightAtMost(rest, x) < threshold {
      forall x | x in sizes
        ensures cumulative + WeightAtMost(sizes, x) < threshold
      {
        if x != m {
          assert x in rest;
        }
      }
    }
    if forall x :: x in sizes ==> cumulative + WeightAtMost(sizes, x) < threshold {
      forall x | x in rest
        ensures next + WeightAtMost(rest, x) < threshold
      {
        assert x in sizes;
      }
    }
  }

  /**
   * When the smallest size m falls short, the answer v for the rest, with the size-m rows
   * added to the running total, is an answer for all sizes.
   */
  lemma PassSmallestSome(sizes: seq<nat>, m: nat, rest: seq<nat>, cumulative: int, next: int, threshold: int, v: nat)
    requires sizes != [] && m == MinOf(sizes) && rest == Without(sizes, m)
    requires next == cumulative + m * Count(sizes, m) < threshold
    requires WalkOutcome(rest, next, threshold, Some(v))
    ensures WalkOutcome(sizes, cumulative, threshold, Some(v))
  {
    ShiftBySmallest(sizes, m, rest);
    forall x | x in sizes && x < v
      ensures cumulative + WeightAtMost(sizes, x) < threshold
    {
      if x != m {
        assert x in rest;
      }
    }
    PassSmallestNone(sizes, m, rest, cumulative, next, threshold);
  }

  /**
   * When the smallest size m falls short, the answer for `sizes` is the answer for the
   * other sizes with the rows of the size-m cells added to the running total.
   */
  lemma PassSmallest(sizes: seq<nat>, cumulative: int, threshold: int, r: Option<nat>)
    requires sizes != []
    requires cumulative + MinOf(sizes) * Count(sizes, MinOf(sizes)) < threshold
    requires WalkOutcome(Without(sizes, MinOf(sizes)),
      cumulative + MinOf(sizes) * Count(sizes, MinOf(sizes)), threshold, r)
    ensures WalkOutcome(sizes, cumulative, threshold, r)
  {
    var m := MinOf(sizes);
    var rest := Without(sizes, m);
    var next := cumulative + m * Count(sizes, m);
    PassSmallestNone(sizes, m, rest, cumulative, next, threshold);
    if r.Some? {
      PassSmallestSome(sizes, m, rest, cumulative, next, threshold, r.value);
    }
  }

  /** One step of the walk: the first run either reaches the target or hands on its total. */
  lemma WalkFirstRun(runs: seq<Run>, m: nat, count: nat, rest: seq<Run>, cumulative: int, threshold: int)
    requires runs == [Run(m, count)] + rest
    ensures Walk(runs, cumulative, threshold) ==
      if cumulative + m * count >= threshold then Some(m)
      else Walk(rest, cumulative + m * count, threshold)
  {
    assert runs[1..] == rest;
  }

  /**
   * Splitting off the cells of the smallest size m: those cells hold m times their number
   * of rows, and every weight above m is theirs plus the rest's.
   */
  lemma SplitAtMin(sizes: seq<nat>)
    requires sizes != []
    ensures var m := MinOf(sizes);
      var rest := Without(sizes, m);
      && (forall x :: x in sizes <==> x == m || x in rest)
      && (forall x :: x in rest ==> m < x)
      && WeightBelow(sizes, m) == 0
      && WeightAtMost(sizes, m) == m * Count(sizes, m)
      && (forall c: int :: m < c ==> WeightBelow(sizes, c) == WeightBelow(rest, c) + m * Count(sizes, m))
  {
    var m := MinOf(sizes);
    var rest := Without(sizes, m);
    forall c: int | m < c
      ensures WeightBelow(sizes, c) == WeightBelow(rest, c) + m * Count(sizes, m)
    {
      WeightWithout(sizes, m, c);
    }
    WeightWithout(sizes, m, m + 1);
    NothingBelow(sizes, m);
    NothingBelow(rest, m + 1);
  }

  /** Every present size falls short of the target exactly when all cells together do. */
  lemma AllShortIffTotalShort(sizes: seq<nat>, threshold: int)
    ensures (forall x :: x in sizes ==> WeightAtMost(sizes, x) < threshold) <==>
      (sizes == [] || Total(sizes) < threshold)
  {
    if sizes != [] {
      var top := MaxOf(sizes);
      WeightBelowTotal(sizes, top + 1);
      forall x | x in sizes
        ensures WeightAtMost(sizes, x) <= Total(sizes)
      {
        WeightBelowTotal(sizes, x + 1);
      }
    }
  }

  /**
   * find_threshold_index over the cell sizes (in any order). A cutoff s is one of the
   * sizes present; the cells of size at most s hold at least `threshold` rows; every
   * smaller present size falls short; and the cells strictly smaller than s either hold
   * fewer than `threshold` rows or hold none. There is no cutoff exactly when there are
   * no cells or all cells together hold fewer than `threshold` rows.
   */
  function FindThresholdIndex(sizes: seq<nat>, threshold: int): (r: Option<nat>)
    ensures r.None? <==> sizes == [] || Total(sizes) < threshold
    ensures r.Some? ==> r.value in sizes
    ensures r.Some? ==> WeightAtMost(sizes, r.value) >= threshold
    ensures r.Some? ==> forall x :: x in sizes && x < r.value ==> WeightAtMost(sizes, x) < threshold
    ensures r.Some? ==> WeightBelow(sizes, r.value) < threshold || WeightBelow(sizes, r.value) == 0
  {
    WalkTally(sizes, 0, threshold);
    AllShortIffTotalShort(sizes, threshold);
    Walk(Tally(sizes), 0, threshold)
  }

  /** With a positive target the cells below the cutoff always fall short of it. */
  lemma BelowCutoffFallsShort(sizes: seq<nat>, threshold: int)
    requires threshold > 0
    requires FindThresholdIndex(sizes, threshold).Some?
    ensures WeightBelow(sizes, FindThresholdIndex(sizes, threshold).value) < threshold
  {
  }
}
