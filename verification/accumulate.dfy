/**
 * The accumulator (accumulate_indices_until_threshold): walk the grid cells from the
 * least to the most occupied, take every row of the cells below the cutoff size, pool
 * the rows of the cells at the cutoff size, stop at the first larger cell, and fill the
 * sample up to the target size with a draw without replacement from the pool.
 */
module Accumulate {
  import opened Collections
  import opened Threshold
  import opened Grouping
  import opened RandomSample

  /**
   * Why the Python function fails instead of returning: comparing a size with a `None`
   * cutoff raises TypeError; `random.sample` raises ValueError on a negative or too
   * large sample size.
   */
  datatype SamplingError = UndeterminedCutoff | InvalidSampleSize

  /** The rows of one cell if its occupancy is at least lo and below hi, else none. */
  function Band<K>(cell: Cell<K>, lo: int, hi: int): seq<nat>
  {
    if lo <= |cell.rows| < hi then cell.rows else []
  }

  /** The rows of the cells whose occupancy is at least lo and below hi, cell after cell. */
  function RowsSized<K>(cells: seq<Cell<K>>, lo: int, hi: int): seq<nat>
  {
    if cells == [] then [] else Band(cells[0], lo, hi) + RowsSized(cells[1..], lo, hi)
  }

  /** Selecting rows by occupancy distributes over concatenation of the cells. */
  lemma {:induction false} RowsSizedAppend<K>(a: seq<Cell<K>>, b: seq<Cell<K>>, lo: int, hi: int)
    ensures RowsSized(a + b, lo, hi) == RowsSized(a, lo, hi) + RowsSized(b, lo, hi)
  {
    if a == [] {
      assert a + b == b;
    } else {
      RowsSizedAppend(a[1..], b, lo, hi);
      assert (a + b)[0] == a[0];
      assert (a + b)[1..] == a[1..] + b;
      ConcatAssoc(Band(a[0], lo, hi), RowsSized(a[1..], lo, hi), RowsSized(b, lo, hi));
    }
  }

  /** Taking one more cell adds that cell's rows if its occupancy is in the band. */
  lemma OneMoreCell<K>(cells: seq<Cell<K>>, i: nat, lo: int, hi: int)
    requires i < |cells|
    ensures RowsSized(cells[..i + 1], lo, hi) == RowsSized(cells[..i], lo, hi) + Band(cells[i], lo, hi)
  {
    assert cells[..i + 1] == cells[..i] + [cells[i]];
    assert [cells[i]][1..] == [];
    RowsSizedAppend(cells[..i], [cells[i]], lo, hi);
    assert RowsSized([cells[i]], lo, hi) == Band(cells[i], lo, hi) + [];
  }

  /** Cells that are all at least hi large contribute no rows below hi. */
  lemma {:induction false} RowsSizedNone<K>(cells: seq<Cell<K>>, lo: int, hi: int)
    requires forall j :: 0 <= j < |cells| ==> hi <= |cells[j].rows|
    ensures RowsSized(cells, lo, hi) == []
  {
    if cells != [] {
      RowsSizedNone(cells[1..], lo, hi);
    }
  }

  /**
   * In cells sorted by occupancy, once cell i is at least hi large, the cells before it
   * already hold every row of occupancy below hi.
   */
  lemma RowsSizedPastBreak<K>(cells: seq<Cell<K>>, i: nat, lo: int, hi: int)
    requires SortedBySize(cells)
    requires i < |cells| && hi <= |cells[i].rows|
    ensures RowsSized(cells[..i], lo, hi) == RowsSized(cells, lo, hi)
  {
    assert cells == cells[..i] + cells[i..];
    RowsSizedAppend(cells[..i], cells[i..], lo, hi);
    RowsSizedNone(cells[i..], lo, hi);
  }

  /** The rows of occupancy in [lo, hi) number the weight below hi minus the weight below lo. */
  lemma {:induction false} RowsSizedLength<K>(cells: seq<Cell<K>>, lo: int, hi: int)
    requires lo <= hi
    ensures |RowsSized(cells, lo, hi)| + WeightBelow(Sizes(cells), lo) == WeightBelow(Sizes(cells), hi)
  {
    if cells != [] {
      RowsSizedLength(cells[1..], lo, hi);
      assert Sizes(cells)[1..] == Sizes(cells[1..]);
    }
  }

  /** Splitting an occupancy band at mid splits its rows. */
  lemma {:induction false} RowsSizedSplit<K>(cells: seq<Cell<K>>, lo: int, mid: int, hi: int)
    requires lo <= mid <= hi
    ensures multiset(RowsSized(cells, lo, mid)) + multiset(RowsSized(cells, mid, hi)) ==
      multiset(RowsSized(cells, lo, hi))
  {
    if cells != [] {
      RowsSizedSplit(cells[1..], lo, mid, hi);
      var s := |cells[0].rows|;
      var low, high := RowsSized(cells[1..], lo, mid), RowsSized(cells[1..], mid, hi);
      var ownLow: multiset<nat> := multiset(Band(cells[0], lo, mid));
      var ownHigh: multiset<nat> := multiset(Band(cells[0], mid, hi));
      assert ownLow + ownHigh == multiset(Band(cells[0], lo, hi));
      assert multiset(RowsSized(cells, lo, mid)) == ownLow + multiset(low);
      assert multiset(RowsSized(cells, mid, hi)) == ownHigh + multiset(high);
      assert multiset(RowsSized(cells, lo, hi)) == (ownLow + ownHigh) + multiset(RowsSized(cells[1..], lo, hi));
      assert (ownLow + multiset(low)) + (ownHigh + multiset(high)) ==
        (ownLow + ownHigh) + (multiset(low) + multiset(high));
    }
  }

  /** The rows of an occupancy band are among the rows of all cells. */
  lemma {:induction false} RowsSizedWithin<K>(cells: seq<Cell<K>>, lo: int, hi: int)
    ensures multiset(RowsSized(cells, lo, hi)) <= multiset(Flatten(cells))
  {
    if cells != [] {
      RowsSizedWithin(cells[1..], lo, hi);
      assert Flatten(cells) == cells[0].rows + Flatten(cells[1..]);
    }
  }

  /** A row is in an occupancy band exactly when some cell of that occupancy holds it. */
  lemma {:induction false} RowsSizedMember<K>(cells: seq<Cell<K>>, lo: int, hi: int, x: nat)
    ensures x in RowsSized(cells, lo, hi) <==>
      exists j :: 0 <= j < |cells| && lo <= |cells[j].rows| < hi && x in cells[j].rows
  {
    if cells != [] {
      RowsSizedMember(cells[1..], lo, hi, x);
      if exists j :: 0 <= j < |cells| && lo <= |cells[j].rows| < hi && x in cells[j].rows {
        var j :| 0 <= j < |cells| && lo <= |cells[j].rows| < hi && x in cells[j].rows;
        if j > 0 {
          assert cells[1..][j - 1] == cells[j];
        }
      }
      if x in RowsSized(cells[1..], lo, hi) {
        var j :| 0 <= j < |cells| - 1 && lo <= |cells[1..][j].rows| < hi && x in cells[1..][j].rows;
        assert cells[j + 1] == cells[1..][j];
      }
    }
  }

  /** The flattened rows number as many as the occupancies add up to. */
  lemma {:induction false} FlattenLength<K>(cells: seq<Cell<K>>)
    ensures |Flatten(cells)| == Total(Sizes(cells))
  {
    if cells != [] {
      FlattenLength(cells[1..]);
      assert Sizes(cells)[1..] == Sizes(cells[1..]);
    }
  }

  /** The grid cells in the order the accumulator visits them: least occupied first. */
  function SortedCells<K(==)>(keys: seq<K>): seq<Cell<K>>
  {
    SortBySize(GroupRows(keys))
  }

  /**
   * `cells` hold the rows of `keys` in some order: each cell holds only rows with its key
   * and is as large as the number of such rows, and every row is in exactly one cell.
   */
  ghost predicate CellsOf<K>(cells: seq<Cell<K>>, keys: seq<K>)
  {
    SizesMatch(cells, keys) && RowsCarryKey(cells, keys) && Partitions(cells, keys)
  }

  /** An element of a sequence has a position in any rearrangement of it. */
  lemma Locate<T>(a: seq<T>, b: seq<T>, j: nat) returns (j': nat)
    requires multiset(a) == multiset(b) && j < |a|
    ensures j' < |b| && b[j'] == a[j]
  {
    assert a[j] in multiset(b);
    j' :| j' < |b| && b[j'] == a[j];
  }

  /** Rearranging cells keeps each cell's size equal to its key's occupancy. */
  lemma SizesMatchPermuted<K>(a: seq<Cell<K>>, b: seq<Cell<K>>, keys: seq<K>)
    requires multiset(a) == multiset(b)
    requires SizesMatch(b, keys)
    ensures SizesMatch(a, keys)
  {
    forall j | 0 <= j < |a|
      ensures |a[j].rows| == Occupancy(keys, a[j].key)
    {
      var j' := Locate(a, b, j);
    }
  }

  /** Rearranging cells keeps every cell's rows carrying its key. */
  lemma RowsCarryKeyPermuted<K>(a: seq<Cell<K>>, b: seq<Cell<K>>, keys: seq<K>)
    requires multiset(a) == multiset(b)
    requires RowsCarryKey(b, keys)
    ensures RowsCarryKey(a, keys)
  {
    forall j, r: nat {:trigger r in a[j].rows} | 0 <= j < |a| && r in a[j].rows
      ensures r < |keys| && keys[r] == a[j].key
    {
      var j' := Locate(a, b, j);
      assert r in b[j'].rows;
    }
  }

  /** The sorted cells are sorted by occupancy. */
  lemma SortedCellsSorted<K>(keys: seq<K>)
    ensures SortedBySize(SortedCells(keys))
  {
  }

  /** The sorted cells still hold the rows of `keys`. */
  lemma SortedCellsHold<K>(keys: seq<K>)
    ensures CellsOf(SortedCells(keys), keys)
  {
    var grouped := GroupRows(keys);
    var cells := SortedCells(keys);
    SizesMatchPermuted(cells, grouped, keys);
    RowsCarryKeyPermuted(cells, grouped, keys);
  }

  /** There are sorted cells exactly when there are rows. */
  lemma SortedCellsEmpty<K>(keys: seq<K>)
    ensures |SortedCells(keys)| == 0 <==> |keys| == 0
  {
    var grouped := GroupRows(keys);
    var cells := SortedCells(keys);
    if |keys| == 0 {
      assert grouped == [];
    } else {
      assert Range(|keys|)[0] == 0;
      assert 0 in multiset(Range(|keys|));
      assert Flatten(cells) != [];
    }
  }

  /** Every row has one cell, so the occupancies add up to the number of rows. */
  lemma RowCount<K>(cells: seq<Cell<K>>, keys: seq<K>)
    requires Partitions(cells, keys)
    ensures Total(Sizes(cells)) == |keys|
  {
    FlattenLength(cells);
    assert |multiset(Flatten(cells))| == |multiset(Range(|keys|))|;
  }

  /**
   * A row is among the rows of the cells of occupancy in [lo, hi) exactly when it is a
   * row of the frame and the number of rows sharing its key is in [lo, hi).
   */
  lemma RowsOfOccupancy<K>(cells: seq<Cell<K>>, keys: seq<K>, lo: int, hi: int, x: nat)
    requires CellsOf(cells, keys)
    ensures x in RowsSized(cells, lo, hi) <==> x < |keys| && lo <= Occupancy(keys, keys[x]) < hi
  {
    RowsSizedMember(cells, lo, hi, x);
    if x < |keys| && lo <= Occupancy(keys, keys[x]) < hi {
      RangeCounts(|keys|);
      assert x in multiset(Flatten(cells));
      FlattenMember(cells, x);
      var j :| 0 <= j < |cells| && x in cells[j].rows;
      assert keys[x] == cells[j].key;
    }
  }

  /** find_threshold_index applied to the occupancy counts of the grid cells. */
  function Cutoff<K(==)>(keys: seq<K>, threshold: int): Option<nat>
  {
    FindThresholdIndex(Sizes(SortedCells(keys)), threshold)
  }

  /** There is no cutoff exactly when the frame is empty or has fewer rows than the target. */
  lemma CutoffExists<K>(keys: seq<K>, threshold: int)
    ensures Cutoff(keys, threshold).None? <==> |keys| == 0 || |keys| < threshold
  {
    SortedCellsHold(keys);
    SortedCellsEmpty(keys);
    RowCount(SortedCells(keys), keys);
  }

  /** Every occupancy weight counts only non-negative sizes, so nothing is below 0. */
  lemma WeightBelowZero(sizes: seq<nat>)
    ensures WeightBelow(sizes, 0) == 0
  {
    NothingBelow(sizes, 0);
  }

  /**
   * Given a cutoff c for the occupancies of some cells, the number of rows still needed
   * after taking the cells below c is never more than the cells at c hold, and it is
   * negative only for a negative target.
   */
  lemma PoolFits<K>(cells: seq<Cell<K>>, threshold: int, c: nat)
    requires FindThresholdIndex(Sizes(cells), threshold) == Some(c)
    ensures threshold - |RowsSized(cells, 0, c)| <= |RowsSized(cells, c, c + 1)|
    ensures threshold - |RowsSized(cells, 0, c)| < 0 <==> threshold < 0
  {
    var sizes := Sizes(cells);
    WeightBelowZero(sizes);
    RowsSizedLength(cells, 0, c);
    RowsSizedLength(cells, c, c + 1);
  }

  /** The rows below a cutoff and those at it are distinct rows among all the cells' rows. */
  lemma BandsWithin<K>(cells: seq<Cell<K>>, c: int)
    ensures multiset(RowsSized(cells, 0, c)) + multiset(RowsSized(cells, c, c + 1)) <= multiset(Flatten(cells))
  {
    if 0 <= c {
      RowsSizedSplit(cells, 0, c, c + 1);
      RowsSizedWithin(cells, 0, c + 1);
    } else {
      RowsSizedNone(cells, 0, c);
      RowsSizedNone(cells, c, c + 1);
    }
  }

  /**
   * `out` is every row of the cells below occupancy c, in cell order, followed by rows
   * drawn without replacement from the cells of occupancy exactly c.
   */
  ghost predicate Assembled<K>(cells: seq<Cell<K>>, c: nat, out: seq<nat>)
  {
    var below := RowsSized(cells, 0, c);
    && |below| <= |out|
    && out[..|below|] == below
    && multiset(out[|below|..]) <= multiset(RowsSized(cells, c, c + 1))
  }

  /**
   * A prefix followed by rows drawn from a pool, where prefix and pool together fit in the
   * positions of an n-row frame, is a sequence of distinct positions below n.
   */
  lemma PrefixAndPoolInside(out: seq<nat>, prefix: seq<nat>, pool: seq<nat>, n: nat)
    requires |prefix| <= |out| && out[..|prefix|] == prefix
    requires multiset(out[|prefix|..]) <= multiset(pool)
    requires multiset(prefix) + multiset(pool) <= multiset(Range(n))
    ensures NoDuplicates(out)
    ensures forall x :: x in out ==> x < n
  {
    var drawn := out[|prefix|..];
    assert out == prefix + drawn;
    var counts: multiset<nat> := multiset(out);
    assert counts == multiset(prefix) + multiset(drawn);
    InsideRange(out, n);
  }

  /**
   * Rows made of all rows below cutoff c followed by rows drawn from those at c are
   * distinct rows of the frame.
   */
  lemma AssembleDistinct<K>(cells: seq<Cell<K>>, keys: seq<K>, c: nat, out: seq<nat>)
    requires Partitions(cells, keys)
    requires Assembled(cells, c, out)
    ensures NoDuplicates(out)
    ensures forall x :: x in out ==> x < |keys|
  {
    BandsWithin(cells, c);
    PrefixAndPoolInside(out, RowsSized(cells, 0, c), RowsSized(cells, c, c + 1), |keys|);
  }

  /** A row of a prefix followed by rows drawn from a pool is in the prefix or in the pool. */
  lemma InPrefixOrPool(out: seq<nat>, prefix: seq<nat>, pool: seq<nat>, x: nat)
    requires |prefix| <= |out| && out[..|prefix|] == prefix
    requires multiset(out[|prefix|..]) <= multiset(pool)
    requires x in out
    ensures x in prefix || x in pool
  {
    var drawn := out[|prefix|..];
    assert out == prefix + drawn;
    if x !in prefix {
      assert x in multiset(drawn);
    }
  }

  /** A row of the assembled output lies in a cell of occupancy at most c. */
  lemma OutputRow<K>(cells: seq<Cell<K>>, keys: seq<K>, c: nat, out: seq<nat>, x: nat)
    requires CellsOf(cells, keys)
    requires Assembled(cells, c, out)
    requires x in out
    ensures x < |keys| && Occupancy(keys, keys[x]) <= c
  {
    InPrefixOrPool(out, RowsSized(cells, 0, c), RowsSized(cells, c, c + 1), x);
    RowsOfOccupancy(cells, keys, 0, c, x);
    RowsOfOccupancy(cells, keys, c, c + 1, x);
  }

  /** A row of occupancy below c is in the assembled output. */
  lemma RowBelowTaken<K>(cells: seq<Cell<K>>, keys: seq<K>, c: nat, out: seq<nat>, x: nat)
    requires CellsOf(cells, keys)
    requires Assembled(cells, c, out)
    requires x < |keys| && Occupancy(keys, keys[x]) < c
    ensures x in out
  {
    RowsOfOccupancy(cells, keys, 0, c, x);
    assert x in out[..|RowsSized(cells, 0, c)|];
  }

  /**
   * The rows so assembled all lie in cells of occupancy at most c, and include every row
   * of occupancy below c.
   */
  lemma AssembleOccupancy<K>(cells: seq<Cell<K>>, keys: seq<K>, c: nat, out: seq<nat>)
    requires CellsOf(cells, keys)
    requires Assembled(cells, c, out)
    ensures forall x :: x in out ==> x < |keys| && Occupancy(keys, keys[x]) <= c
    ensures forall x :: 0 <= x < |keys| && Occupancy(keys, keys[x]) < c ==> x in out
  {
    forall x | x in out
      ensures x < |keys| && Occupancy(keys, keys[x]) <= c
    {
      OutputRow(cells, keys, c, out, x);
    }
    forall x | 0 <= x < |keys| && Occupancy(keys, keys[x]) < c
      ensures x in out
    {
      RowBelowTaken(cells, keys, c, out, x);
    }
  }

  /** What the walk over the cells collects: the rows taken whole, their number, and the pool. */
  datatype Collected = Collected(accumulated: seq<nat>, accumulatedCount: nat, remaining: seq<nat>)

  /**
   * The loop of accumulate_indices_until_threshold over cells sorted by occupancy. With
   * no cutoff, the first comparison fails (so it fails exactly when there is a cell);
   * with cutoff c it collects the rows of every cell below c and pools the rows of every
   * cell at c, stopping at the first larger cell.
   */
  method CollectCells<K>(cells: seq<Cell<K>>, cutoff: Option<nat>) returns (r: Result<Collected, SamplingError>)
    requires SortedBySize(cells)
    ensures r.Err? <==> cutoff.None? && |cells| > 0
    ensures r.Err? ==> r.error == UndeterminedCutoff
    ensures r.Ok? && cutoff.None? ==> r.value == Collected([], 0, [])
    ensures r.Ok? && cutoff.Some? ==>
      && r.value.accumulated == RowsSized(cells, 0, cutoff.value)
      && r.value.accumulatedCount == |r.value.accumulated|
      && r.value.remaining == RowsSized(cells, cutoff.value, cutoff.value + 1)
  {
    var accumulated: seq<nat> := [];
    var accumulatedCount := 0;
    var remaining: seq<nat> := [];
    var i := 0;
    while i < |cells|
      invariant 0 <= i <= |cells|
      invariant accumulatedCount == |accumulated|
      invariant cutoff.None? ==> i == 0 && accumulated == [] && remaining == []
      invariant cutoff.Some? ==> accumulated == RowsSized(cells[..i], 0, cutoff.value)
      invariant cutoff.Some? ==> remaining == RowsSized(cells[..i], cutoff.value, cutoff.value + 1)
    {
      if cutoff.None? {
        return Err(UndeterminedCutoff);
      }
      var c := cutoff.value;
      var group := cells[i].rows;
      OneMoreCell(cells, i, 0, c);
      OneMoreCell(cells, i, c, c + 1);
      if |group| < c {
        accumulated := accumulated + group;
        accumulatedCount := accumulatedCount + |group|;
      } else if |group| == c {
        remaining := remaining + group;
      } else {
        RowsSizedPastBreak(cells, i, 0, c);
        RowsSizedPastBreak(cells, i, c, c + 1);
        break;
      }
      i := i + 1;
    }
    assert cells[..|cells|] == cells;
    r := Ok(Collected(accumulated, accumulatedCount, remaining));
  }

  /**
   * random.sample refuses to draw the rows still needed after the cells below cutoff c
   * from the rows at c: the number needed is negative or exceeds the pool.
   */
  predicate DrawRefused<K>(cells: seq<Cell<K>>, threshold: int, c: nat)
  {
    var needed := threshold - |RowsSized(cells, 0, c)|;
    needed < 0 || needed > |RowsSized(cells, c, c + 1)|
  }

  /**
   * What the body of accumulate_indices_until_threshold delivers once the cells are
   * sorted and the cutoff is known: it fails with the TypeError exactly when there is no
   * cutoff but there are cells, and with the ValueError of the draw exactly when the
   * draw is refused (with a cutoff) or the target is nonzero (with no cells); otherwise it returns
   * `threshold` rows, all rows below the cutoff first, then rows drawn from those at
   * the cutoff.
   */
  ghost predicate SortedOutcome<K>(cells: seq<Cell<K>>, threshold: int, cutoff: Option<nat>, r: Result<seq<nat>, SamplingError>)
  {
    && (r == Err(UndeterminedCutoff) <==> cutoff.None? && |cells| > 0)
    && (r == Err(InvalidSampleSize) <==>
          if cutoff.Some? then DrawRefused(cells, threshold, cutoff.value) else |cells| == 0 && threshold != 0)
    && (r.Ok? ==> |r.value| == threshold)
    && (r.Ok? && cutoff.None? ==> r.value == [])
    && (r.Ok? && cutoff.Some? ==> Assembled(cells, cutoff.value, r.value))
  }

  /**
   * The body of accumulate_indices_until_threshold once the cells are sorted and the
   * cutoff is known: collect, then draw the missing rows from the pool, with the outcome
   * `SortedOutcome` describes.
   */
  method AccumulateSorted<K>(cells: seq<Cell<K>>, threshold: int, cutoff: Option<nat>, draw: nat -> nat)
    returns (r: Result<seq<nat>, SamplingError>)
    requires SortedBySize(cells)
    ensures SortedOutcome(cells, threshold, cutoff, r)
  {
    var collected := CollectCells(cells, cutoff);
    if collected.Err? {
      return Err(collected.error);
    }
    var Collected(accumulated, accumulatedCount, remaining) := collected.value;
    var remainingCount := threshold - accumulatedCount;
    var drawn := Sample(remaining, remainingCount, draw);
    if drawn.Err? {
      return Err(InvalidSampleSize);
    }
    r := Ok(accumulated + drawn.value);
    assert r.value[..|accumulated|] == accumulated;
    assert r.value[|accumulated|..] == drawn.value;
  }

  /** At the cutoff find_threshold_index returns, the draw is refused only for a negative target. */
  lemma RefusedOnlyForNegative<K>(cells: seq<Cell<K>>, threshold: int, c: nat)
    requires FindThresholdIndex(Sizes(cells), threshold) == Some(c)
    ensures DrawRefused(cells, threshold, c) <==> threshold < 0
  {
    PoolFits(cells, threshold, c);
  }

  /** The sorted body fails as the whole function promises. */
  lemma OutcomeErrors<K>(keys: seq<K>, threshold: int, r: Result<seq<nat>, SamplingError>)
    requires SortedOutcome(SortedCells(keys), threshold, Cutoff(keys, threshold), r)
    ensures r == Err(UndeterminedCutoff) <==> 0 < |keys| < threshold
    ensures r == Err(InvalidSampleSize) <==> threshold < 0 || (|keys| == 0 && threshold > 0)
  {
    SortedCellsEmpty(keys);
    CutoffExists(keys, threshold);
    if Cutoff(keys, threshold).Some? {
      RefusedOnlyForNegative(SortedCells(keys), threshold, Cutoff(keys, threshold).value);
    }
  }

  /** A successful sorted body over cells holding the rows of `keys` returns distinct, banded rows. */
  lemma SortedOutcomeRows<K>(cells: seq<Cell<K>>, keys: seq<K>, threshold: int, cutoff: Option<nat>,
                             r: Result<seq<nat>, SamplingError>)
    requires CellsOf(cells, keys)
    requires SortedOutcome(cells, threshold, cutoff, r)
    requires r.Ok?
    ensures |r.value| == threshold && NoDuplicates(r.value)
    ensures forall x :: x in r.value ==> x < |keys|
    ensures match cutoff
      case None => r.value == []
      case Some(c) =>
        && (forall x :: x in r.value ==> Occupancy(keys, keys[x]) <= c)
        && (forall x :: 0 <= x < |keys| && Occupancy(keys, keys[x]) < c ==> x in r.value)
  {
    if cutoff.Some? {
      AssembleDistinct(cells, keys, cutoff.value, r.value);
      AssembleOccupancy(cells, keys, cutoff.value, r.value);
    }
  }

  /** A successful sorted body returns what the whole function promises. */
  lemma OutcomeRows<K>(keys: seq<K>, threshold: int, r: Result<seq<nat>, SamplingError>)
    requires SortedOutcome(SortedCells(keys), threshold, Cutoff(keys, threshold), r)
    requires r.Ok?
    ensures |r.value| == threshold && NoDuplicates(r.value)
    ensures forall x :: x in r.value ==> x < |keys|
    ensures match Cutoff(keys, threshold)
      case None => r.value == []
      case Some(c) =>
        && (forall x :: x in r.value ==> Occupancy(keys, keys[x]) <= c)
        && (forall x :: 0 <= x < |keys| && Occupancy(keys, keys[x]) < c ==> x in r.value)
  {
    SortedCellsHold(keys);
    SortedOutcomeRows(SortedCells(keys), keys, threshold, Cutoff(keys, threshold), r);
  }

  /**
   * accumulate_indices_until_threshold on a frame whose rows have grid keys `keys`, with
   * the random source `draw`. It fails with the TypeError exactly when the frame has rows
   * but fewer than `threshold`, and with the ValueError of the draw exactly when the
   * target is negative or the frame is empty and the target positive. Otherwise it
   * returns exactly `threshold` distinct rows of the frame; with cutoff c, every row in a
   * cell smaller than c is among them and none lies in a cell larger than c.
   */
  method AccumulateIndicesUntilThreshold<K(==)>(keys: seq<K>, threshold: int, draw: nat -> nat)
    returns (r: Result<seq<nat>, SamplingError>)
    ensures r == Err(UndeterminedCutoff) <==> 0 < |keys| < threshold
    ensures r == Err(InvalidSampleSize) <==> threshold < 0 || (|keys| == 0 && threshold > 0)
    ensures r.Ok? ==> |r.value| == threshold && NoDuplicates(r.value)
    ensures r.Ok? ==> forall x :: x in r.value ==> x < |keys|
    ensures r.Ok? ==> match Cutoff(keys, threshold)
      case None => r.value == []
      case Some(c) =>
        && (forall x :: x in r.value ==> Occupancy(keys, keys[x]) <= c)
        && (forall x :: 0 <= x < |keys| && Occupancy(keys, keys[x]) < c ==> x in r.value)
  {
    var cells := SortedCells(keys);
    var cutoff := Cutoff(keys, threshold);
    SortedCellsSorted(keys);
    r := AccumulateSorted(cells, threshold, cutoff, draw);
    OutcomeErrors(keys, threshold, r);
    if r.Ok? {
      OutcomeRows(keys, threshold, r);
    }
  }
}
