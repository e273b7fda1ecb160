/**
 * The grid binner (perform_pca_binning): every used embedding axis is cut into
 * evenly spaced bins between its minimum and maximum, and every row gets the tuple
 * of its per-axis bin indices as its grid-cell key. Coordinates are exact reals.
 */
module Binning {
  import opened Collections

  /** One bin index per used axis, in axis order. */
  type GridKey = seq<nat>

  /**
   * Assigning `list(zip(*bins))` with no axes gives an empty list, which pandas refuses
   * to store as a column of a frame that has rows.
   */
  datatype BinningError = KeyColumnLengthMismatch

  predicate NonDecreasing(s: seq<real>)
  {
    forall i, j :: 0 <= i <= j < |s| ==> s[i] <= s[j]
  }

  /** The smallest coordinate of an axis. */
  function Min(s: seq<real>): (m: real)
    requires |s| > 0
    ensures m in s
    ensures forall i :: 0 <= i < |s| ==> m <= s[i]
  {
    if |s| == 1 then s[0]
    else
      var rest := Min(s[1..]);
      if s[0] <= rest then s[0] else rest
  }

  /** The largest coordinate of an axis. */
  function Max(s: seq<real>): (m: real)
    requires |s| > 0
    ensures m in s
    ensures forall i :: 0 <= i < |s| ==> s[i] <= m
  {
    if |s| == 1 then s[0]
    else
      var rest := Max(s[1..]);
      if s[0] >= rest then s[0] else rest
  }

  /** The width of one of n equal bins spanning [lo, hi]. */
  function Step(lo: real, hi: real, n: nat): real
    requires n > 0
  {
    (hi - lo) / (n as real)
  }

  /** n bin widths span the whole range. */
  lemma StepSpans(lo: real, hi: real, n: nat)
    requires n > 0
    ensures (n as real) * Step(lo, hi, n) == hi - lo
  {
  }

  /**
   * numpy.linspace(lo, hi, n + 1): n + 1 evenly spaced edges from lo to hi, the last
   * one set to hi exactly; for n = 0 the single edge lo.
   */
  function Edges(lo: real, hi: real, n: nat): (e: seq<real>)
    ensures |e| == n + 1
    ensures e[0] == lo
    ensures n > 0 ==> e[n] == hi
    ensures n > 0 ==> forall k :: 0 <= k <= n ==> e[k] == lo + (k as real) * Step(lo, hi, n)
  {
    var e := seq(n + 1, k requires 0 <= k <= n =>
      if k == 0 then lo
      else if k == n then hi
      else lo + (k as real) * Step(lo, hi, n));
    if n > 0 then StepSpans(lo, hi, n); e else e
  }

  /** Edges over a non-empty range ascend. */
  lemma EdgesNonDecreasing(lo: real, hi: real, n: nat)
    requires lo <= hi
    ensures NonDecreasing(Edges(lo, hi, n))
  {
    var e := Edges(lo, hi, n);
    if n > 0 {
      var w := Step(lo, hi, n);
      StepSpans(lo, hi, n);
      assert 0.0 <= w;
      forall i, j | 0 <= i <= j < |e|
        ensures e[i] <= e[j]
      {
        ScaleMonotone(i as real, j as real, w);
      }
    }
  }

  /**
   * numpy.digitize(v, edges) with the default right=False: the number of edges at or
   * below v. For non-decreasing edges that is the b with edges[b-1] <= v < edges[b].
   */
  function Digitize(edges: seq<real>, v: real): (b: nat)
    ensures b <= |edges|
    ensures NonDecreasing(edges) ==>
      (forall i :: 0 <= i < b ==> edges[i] <= v) && (forall i :: b <= i < |edges| ==> v < edges[i])
  {
    if edges == [] then 0
    else
      assert NonDecreasing(edges) ==> NonDecreasing(edges[1..]);
      (if edges[0] <= v then 1 else 0) + Digitize(edges[1..], v)
  }

  /** A larger coordinate never lands in a smaller bin. */
  lemma {:induction false} DigitizeMonotone(edges: seq<real>, v: real, v': real)
    requires v <= v'
    ensures Digitize(edges, v) <= Digitize(edges, v')
  {
    if edges != [] {
      DigitizeMonotone(edges[1..], v, v');
    }
  }

  /** The edges of one axis: from its minimum to its maximum in n equal steps. */
  function AxisEdges(col: seq<real>, n: nat): seq<real>
    requires |col| > 0
  {
    Edges(Min(col), Max(col), n)
  }

  /**
   * create_bins_and_digitize: the bin index of every value of one axis. Every index is
   * between 1 and n + 1, the maximum (and, with n > 0, only the maximum) lands in
   * bin n + 1, every other value lies in its bin's half-open interval, and the binning
   * preserves the order of the values.
   */
  function BinColumn(col: seq<real>, n: nat): (bins: seq<nat>)
    ensures |bins| == |col|
    ensures forall i :: 0 <= i < |col| ==> 1 <= bins[i] <= n + 1
    ensures forall i :: 0 <= i < |col| && col[i] == Max(col) ==> bins[i] == n + 1
    ensures n > 0 ==> forall i :: 0 <= i < |col| && bins[i] == n + 1 ==> col[i] == Max(col)
    ensures forall i :: 0 <= i < |col| && bins[i] <= n ==>
      AxisEdges(col, n)[bins[i] - 1] <= col[i] < AxisEdges(col, n)[bins[i]]
    ensures forall i, j :: 0 <= i < |col| && 0 <= j < |col| && col[i] <= col[j] ==> bins[i] <= bins[j]
  {
    if col == [] then []
    else
      var e := AxisEdges(col, n);
      EdgesNonDecreasing(Min(col), Max(col), n);
      var bins := seq(|col|, i requires 0 <= i < |col| => Digitize(e, col[i]));
      assert forall i, j :: 0 <= i < |col| && 0 <= j < |col| && col[i] <= col[j] ==> bins[i] <= bins[j] by {
        forall i, j | 0 <= i < |col| && 0 <= j < |col| && col[i] <= col[j]
          ensures bins[i] <= bins[j]
        {
          DigitizeMonotone(e, col[i], col[j]);
        }
      }
      bins
  }

  /** A constant axis (minimum equals maximum) puts every row in the same bin, n + 1. */
  lemma ConstantAxisOneBin(col: seq<real>, n: nat)
    requires |col| > 0
    requires Min(col) == Max(col)
    ensures forall i :: 0 <= i < |col| ==> BinColumn(col, n)[i] == n + 1
  {
  }

  /** num_pcs: the number of axes used, min(len(feature_importances), ncols). */
  function NumAxes(ncols: nat, binCounts: seq<nat>): nat
  {
    if |binCounts| < ncols then |binCounts| else ncols
  }

  /** Column j of a row-major matrix (`df.iloc[:, j]`). */
  function Column(rows: seq<seq<real>>, j: nat): (col: seq<real>)
    requires forall i :: 0 <= i < |rows| ==> j < |rows[i]|
    ensures |col| == |rows|
    ensures forall i :: 0 <= i < |rows| ==> col[i] == rows[i][j]
  {
    seq(|rows|, i requires 0 <= i < |rows| => rows[i][j])
  }

  /**
   * perform_pca_binning: the grid key of every row, one bin index per used axis in axis
   * order; refused when no axis is used although the frame has rows.
   */
  function PerformBinning(rows: seq<seq<real>>, ncols: nat, binCounts: seq<nat>): (r: Result<seq<GridKey>, BinningError>)
    requires forall i :: 0 <= i < |rows| ==> |rows[i]| == ncols
    ensures r.Err? <==> |rows| > 0 && NumAxes(ncols, binCounts) == 0
    ensures r.Ok? ==> |r.value| == |rows|
    ensures r.Ok? ==> forall i :: 0 <= i < |rows| ==> |r.value[i]| == NumAxes(ncols, binCounts)
    ensures r.Ok? ==> forall i, j :: 0 <= i < |rows| && 0 <= j < NumAxes(ncols, binCounts) ==>
      1 <= r.value[i][j] <= binCounts[j] + 1
    ensures r.Ok? ==> forall i, j :: 0 <= i < |rows| && 0 <= j < NumAxes(ncols, binCounts) ==>
      r.value[i][j] == BinColumn(Column(rows, j), binCounts[j])[i]
  {
    var m := NumAxes(ncols, binCounts);
    if |rows| > 0 && m == 0 then Err(KeyColumnLengthMismatch)
    else
      var bins := seq(m, j requires 0 <= j < m => BinColumn(Column(rows, j), binCounts[j]));
      Ok(seq(|rows|, i requires 0 <= i < |rows| => seq(m, j requires 0 <= j < m => bins[j][i])))
  }

  /** Rows that agree on every used axis share a grid cell. */
  lemma SameCoordinatesSameKey(rows: seq<seq<real>>, ncols: nat, binCounts: seq<nat>, i: int, i': int)
    requires forall r :: 0 <= r < |rows| ==> |rows[r]| == ncols
    requires PerformBinning(rows, ncols, binCounts).Ok?
    requires 0 <= i < |rows| && 0 <= i' < |rows|
    requires forall j :: 0 <= j < NumAxes(ncols, binCounts) ==> rows[i][j] == rows[i'][j]
    ensures PerformBinning(rows, ncols, binCounts).value[i] == PerformBinning(rows, ncols, binCounts).value[i']
  {
    var keys := PerformBinning(rows, ncols, binCounts).value;
    var m := NumAxes(ncols, binCounts);
    forall j | 0 <= j < m
      ensures keys[i][j] == keys[i'][j]
    {
      var col := Column(rows, j);
      assert col[i] == col[i'];
    }
  }
}
