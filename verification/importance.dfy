/**
 * The importance weighter: per-axis explained-variance shares become integer bin
 * counts, and axes whose count is too small to be useful are dropped.
 * Shares are exact reals, so numpy's float rounding is not modelled.
 */
module Importance {
  import opened Collections

  /** Below this many shares a fixed scale applies to every share. */
  const FewAxes: nat := 40
  /** The scale used when there are fewer than `FewAxes` shares. */
  const FixedScale: real := 100.0
  /** Position of the reference share (the 20th axis) used with many shares. */
  const ReferenceAxis: nat := 19
  /** The bin count given to the reference axis when there are many shares. */
  const ReferenceBins: real := 2.0
  /** Bin counts at or below this value are dropped. */
  const MinUsefulBins: int := 2

  /**
   * The least integer not below x: numpy's `ceil` followed by `astype(int)`, on unbounded
   * integers (the int64 range of the cast is not modelled).
   */
  function Ceil(x: real): (r: int)
    ensures (r - 1) as real < x <= r as real
  {
    var f := x.Floor;
    if f as real == x then f else f + 1
  }

  /** The ceiling is the only integer within one below x's upper side. */
  lemma CeilUnique(x: real, k: int)
    requires (k - 1) as real < x <= k as real
    ensures Ceil(x) == k
  {
  }

  /** The factor every share is scaled by: 100 for few shares, otherwise 2 / shares[19]. */
  function Multiplier(shares: seq<real>): (m: real)
    requires |shares| >= FewAxes ==> shares[ReferenceAxis] != 0.0
    ensures |shares| < FewAxes ==> m == FixedScale
  {
    if |shares| < FewAxes then FixedScale else ReferenceBins / shares[ReferenceAxis]
  }

  /** With many shares, the multiplier scales the reference share to exactly its bin count. */
  lemma MultiplierScalesReference(shares: seq<real>)
    requires |shares| >= FewAxes && shares[ReferenceAxis] != 0.0
    ensures Multiplier(shares) * shares[ReferenceAxis] == ReferenceBins
  {
  }

  /** Every share scaled by the multiplier and rounded up, in axis order. */
  function ScaledShares(shares: seq<real>): (r: seq<int>)
    requires |shares| >= FewAxes ==> shares[ReferenceAxis] != 0.0
    ensures |r| == |shares|
    ensures forall i :: 0 <= i < |r| ==>
      (r[i] - 1) as real < shares[i] * Multiplier(shares) <= r[i] as real
  {
    ScaleEach(shares, Multiplier(shares))
  }

  /** Every share times m, rounded up. */
  function ScaleEach(shares: seq<real>, m: real): (r: seq<int>)
    ensures |r| == |shares|
    ensures forall i :: 0 <= i < |r| ==> (r[i] - 1) as real < shares[i] * m <= r[i] as real
  {
    if shares == [] then [] else [Ceil(shares[0] * m)] + ScaleEach(shares[1..], m)
  }

  /** `a` is obtained from `b` by deleting elements, the rest keeping their order. */
  predicate IsSubsequence(a: seq<int>, b: seq<int>)
    decreases |b|
  {
    if a == [] then true
    else if b == [] then false
    else (a[0] == b[0] && IsSubsequence(a[1..], b[1..])) || IsSubsequence(a, b[1..])
  }

  /** Number of occurrences of x in s. */
  function Occurrences(s: seq<int>, x: int): nat
  {
    if s == [] then 0 else (if s[0] == x then 1 else 0) + Occurrences(s[1..], x)
  }

  /** numpy's boolean mask `s[s > bound]`: the entries above bound, in their original order. */
  function KeepAbove(s: seq<int>, bound: int): (r: seq<int>)
    ensures forall i :: 0 <= i < |r| ==> r[i] > bound
    ensures IsSubsequence(r, s)
    ensures forall x :: x > bound ==> Occurrences(r, x) == Occurrences(s, x)
    ensures |r| <= |s|
  {
    if s == [] then []
    else if s[0] > bound then [s[0]] + KeepAbove(s[1..], bound)
      else KeepAbove(s[1..], bound)
  }

  /**
   * adjust_feature_importances: the bin count of every axis whose scaled, rounded-up
   * share exceeds 2, in axis order. Every surviving count is above 2, the survivors
   * are a subsequence of the scaled shares, and no count above 2 is lost.
   */
  function AdjustFeatureImportances(shares: seq<real>): (r: seq<int>)
    requires |shares| >= FewAxes ==> shares[ReferenceAxis] != 0.0
    ensures forall i :: 0 <= i < |r| ==> r[i] > MinUsefulBins
    ensures IsSubsequence(r, ScaledShares(shares))
    ensures forall x :: x > MinUsefulBins ==>
      Occurrences(r, x) == Occurrences(ScaledShares(shares), x)
    ensures |r| <= |shares|
  {
    KeepAbove(ScaledShares(shares), MinUsefulBins)
  }

  /** With fewer than 40 shares, an axis keeps a bin count exactly when its share exceeds 2%. */
  lemma FewSharesKeepRule(shares: seq<real>, i: int)
    requires |shares| < FewAxes
    requires 0 <= i < |shares|
    ensures ScaledShares(shares)[i] > MinUsefulBins <==> shares[i] > 0.02
  {
    var k := ScaledShares(shares)[i];
    assert (k - 1) as real < shares[i] * 100.0 <= k as real;
  }

  /**
   * With 40 or more shares, the reference axis itself always gets exactly 2 bins and is
   * therefore dropped.
   */
  lemma ReferenceAxisDropped(shares: seq<real>)
    requires |shares| >= FewAxes
    requires shares[ReferenceAxis] != 0.0
    ensures ScaledShares(shares)[ReferenceAxis] == 2
  {
    var m := Multiplier(shares);
    MultiplierScalesReference(shares);
    CeilUnique(shares[ReferenceAxis] * m, 2);
  }

  /** A masked sequence whose entries from position k on are all at or below the bound keeps at most k entries. */
  lemma {:induction false} KeepAboveAtMost(s: seq<int>, bound: int, k: nat)
    requires forall i :: k <= i < |s| ==> s[i] <= bound
    ensures |KeepAbove(s, bound)| <= k
  {
    if s != [] {
      if k == 0 {
        KeepAboveAtMost(s[1..], bound, 0);
      } else {
        KeepAboveAtMost(s[1..], bound, k - 1);
      }
    }
  }

  /**
   * PCA reports shares in non-increasing order. With 40 or more of them, every axis from
   * the 20th on scales to at most 2 bins, so at most 19 axes survive.
   */
  lemma ManySharesKeepAtMostNineteen(shares: seq<real>)
    requires |shares| >= FewAxes
    requires shares[ReferenceAxis] > 0.0
    requires forall i, j :: 0 <= i <= j < |shares| ==> shares[j] <= shares[i]
    ensures |AdjustFeatureImportances(shares)| <= ReferenceAxis
  {
    var m := Multiplier(shares);
    var scaled := ScaledShares(shares);
    assert m > 0.0 by {
      MultiplierScalesReference(shares);
    }
    forall i | ReferenceAxis <= i < |scaled|
      ensures scaled[i] <= MinUsefulBins
    {
      assert shares[i] <= shares[ReferenceAxis];
      assert shares[i] * m <= shares[ReferenceAxis] * m;
    }
    KeepAboveAtMost(scaled, MinUsefulBins, ReferenceAxis);
  }

  /** Integers at or above two ordered reals, within one of the smaller one, keep their order. */
  lemma CeilOrder(x: real, y: real, cx: int, cy: int)
    requires x <= y
    requires (cx - 1) as real < x
    requires y <= cy as real
    ensures cx <= cy
  {
  }

  /** A masked sequence whose entries all lie at or below the bound keeps nothing. */
  lemma KeepAboveNone(s: seq<int>, bound: int)
    requires forall i :: 0 <= i < |s| ==> s[i] <= bound
    ensures KeepAbove(s, bound) == []
  {
    KeepAboveAtMost(s, bound, 0);
  }

  /** Masking a non-increasing sequence keeps a prefix of it. */
  lemma {:induction false} KeepAbovePrefix(s: seq<int>, bound: int)
    requires forall i, j :: 0 <= i <= j < |s| ==> s[j] <= s[i]
    ensures |KeepAbove(s, bound)| <= |s|
    ensures KeepAbove(s, bound) == s[..|KeepAbove(s, bound)|]
  {
    if s != [] {
      var tail := s[1..];
      if s[0] > bound {
        KeepAbovePrefix(tail, bound);
        var kept := KeepAbove(tail, bound);
        assert KeepAbove(s, bound) == [s[0]] + kept;
        assert [s[0]] + tail[..|kept|] == s[..|kept| + 1];
      } else {
        KeepAboveNone(tail, bound);
      }
    }
  }

  /**
   * Counts that round up shares scaled by m >= 0 keep the shares' order: a smaller share
   * never gets a larger count.
   */
  lemma CountsOrder(shares: seq<real>, m: real, counts: seq<int>, i: nat, j: nat)
    requires i < |shares| && j < |shares| && |counts| == |shares|
    requires shares[j] <= shares[i] && 0.0 <= m
    requires (counts[j] - 1) as real < shares[j] * m
    requires shares[i] * m <= counts[i] as real
    ensures counts[j] <= counts[i]
  {
    ScaleMonotone(shares[j], shares[i], m);
    CeilOrder(shares[j] * m, shares[i] * m, counts[j], counts[i]);
  }

  /** Non-increasing shares scaled by m >= 0 give non-increasing counts. */
  lemma ScaledNonIncreasing(shares: seq<real>, m: real)
    requires forall i, j :: 0 <= i <= j < |shares| ==> shares[j] <= shares[i]
    requires 0.0 <= m
    ensures forall i, j :: 0 <= i <= j < |shares| ==> ScaleEach(shares, m)[j] <= ScaleEach(shares, m)[i]
  {
    var counts := ScaleEach(shares, m);
    forall i, j | 0 <= i <= j < |shares|
      ensures counts[j] <= counts[i]
    {
      CountsOrder(shares, m, counts, i, j);
    }
  }

  /** With a positive reference share the multiplier is not negative. */
  lemma MultiplierNonNegative(shares: seq<real>)
    requires |shares| >= FewAxes ==> shares[ReferenceAxis] > 0.0
    ensures 0.0 <= Multiplier(shares)
  {
    if |shares| >= FewAxes {
      MultiplierScalesReference(shares);
    }
  }

  /**
   * PCA reports shares in non-increasing order. Then the scaled counts do not increase
   * either, so the surviving counts are the first ones: the j-th surviving count is the
   * count of axis j, which is the axis perform_pca_binning applies it to.
   */
  lemma SortedSharesKeepPrefix(shares: seq<real>)
    requires |shares| >= FewAxes ==> shares[ReferenceAxis] > 0.0
    requires forall i, j :: 0 <= i <= j < |shares| ==> shares[j] <= shares[i]
    ensures forall j :: 0 <= j < |AdjustFeatureImportances(shares)| ==>
      AdjustFeatureImportances(shares)[j] == ScaledShares(shares)[j]
  {
    MultiplierNonNegative(shares);
    ScaledNonIncreasing(shares, Multiplier(shares));
    KeepAbovePrefix(ScaledShares(shares), MinUsefulBins);
  }
}
