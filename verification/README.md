# Density-stratified row selection (sparseFlow sampling core)

This project models the row selector of `sparseFlow/sampling.py` in Dafny, and proves properties of that model. The selector picks a target number of rows from an embedding. It favours rows that sit in sparsely occupied grid cells. It works in four steps:

1. **Importance weighting** (`adjust_feature_importances`). Per-axis variance shares become integer bin counts: `ceil(share * 100)` with fewer than 40 shares, `ceil(share * 2 / shares[19])` otherwise. Counts of 2 or less are dropped (`Importance`).
2. **Grid binning** (`perform_pca_binning`, with `create_bins_and_digitize` and `compute_sample_bins`). Each used axis is cut into `n` equal bins between its minimum and maximum with `linspace`, and `digitize` gives each coordinate a bin index. A row's grid key is the tuple of its bin indices (`Binning`).
3. **Cutoff search** (`find_threshold_index`). It walks the distinct cell sizes from smallest to largest and adds up `size * number of cells of that size`. It returns the first size at which the running total reaches the target, or nothing (`Threshold`).
4. **Accumulation** (`accumulate_indices_until_threshold`). It walks the cells from least to most occupied. It takes every row of the cells below the cutoff and pools the rows of the cells at the cutoff. It stops at the first larger cell. Then it draws the missing rows from the pool with `random.sample` (`Accumulate`, `RandomSample`).

`Grouping` stands in for the pandas steps the accumulator relies on. These are `groupby` and `value_counts` (one cell per grid key, holding its rows in row order) and `sort_values` (cells in ascending order of occupancy). `Collections` holds shared vocabulary: `Option`, `Result`, row ranges and duplicate-freedom.

Modelling decisions:
- Rows are identified by their position `0 .. N-1`, as in a frame with a default index.
- Coordinates and shares are exact `real`s.
- Every Python exception on the modelled paths becomes an `Err` value:
  - comparing a size with a missing cutoff (a `TypeError`) is `UndeterminedCutoff`;
  - `random.sample`'s `ValueError` for a negative or too large sample is `InvalidSampleSize`;
  - assigning an empty key list to a frame with rows is `KeyColumnLengthMismatch`.
- The random source is a parameter `draw`. `draw(i)` is the raw outcome of the i-th draw, reduced into the live part of the pool as in a partial Fisher–Yates shuffle.

The main contract is on `Accumulate.AccumulateIndicesUntilThreshold`. It fails with the `TypeError` exactly when the frame has rows but fewer than the target. It fails with the `ValueError` exactly when the target is negative, or when the frame is empty and the target is positive. Otherwise it returns exactly `threshold` distinct rows of the frame. Every row of a cell smaller than the cutoff is among them, and none comes from a cell larger than the cutoff. The link between the cutoff search and the accumulator is `Accumulate.PoolFits`: once a cutoff exists, the number of rows still needed after the small cells is never negative for a non-negative target, and never exceeds the pool. So at that cutoff `random.sample` refuses only a negative target.

With no cutoff, the code raises the `TypeError` only when the loop has a cell to compare. For an empty frame the loop does not run, and `random.sample([], threshold)` decides: it returns `[]` for a target of 0 and raises `ValueError` otherwise. The model follows the code.

## Model

| member | source | states |
|---|---|---|
| Importance.Ceil | sparseFlow/sampling.py:30 | the rounded-up value is the integer r with r - 1 < x <= r |
| Importance.CeilUnique | sparseFlow/sampling.py:30 | any integer k with k - 1 < x <= k is the ceiling of x |
| Importance.Multiplier | sparseFlow/sampling.py:29-32 | with fewer than 40 shares every share is scaled by 100 |
| Importance.MultiplierScalesReference | sparseFlow/sampling.py:32 | with 40 or more shares the multiplier times shares[19] is exactly 2 |
| Importance.ScaledShares | sparseFlow/sampling.py:29-33 | one count per share, each the least integer at or above share times multiplier |
| Importance.KeepAbove | sparseFlow/sampling.py:35 | the boolean mask keeps only entries above the bound, as a subsequence, losing no entry above the bound |
| Importance.AdjustFeatureImportances | sparseFlow/sampling.py:28-35 | every returned count exceeds 2; the counts are a subsequence of the scaled shares; every scaled count above 2 survives as often as it occurs |
| Importance.FewSharesKeepRule | sparseFlow/sampling.py:29-35 | with fewer than 40 shares an axis keeps a count exactly when its share exceeds 0.02 |
| Importance.ReferenceAxisDropped | sparseFlow/sampling.py:31-35 | with 40 or more shares the 20th axis always scales to exactly 2 bins, so it is dropped |
| Importance.ManySharesKeepAtMostNineteen | sparseFlow/sampling.py:31-35 | with 40 or more non-increasing shares at most 19 counts survive |
| Importance.KeepAbovePrefix | sparseFlow/sampling.py:35 | masking a non-increasing sequence keeps a prefix of it |
| Importance.SortedSharesKeepPrefix | sparseFlow/sampling.py:33-35 | for non-increasing shares the j-th surviving count is the count of axis j, the axis the binner applies it to |
| Binning.Min | sparseFlow/sampling.py:16 | the axis minimum is a coordinate of the axis and at most every coordinate |
| Binning.Max | sparseFlow/sampling.py:16 | the axis maximum is a coordinate of the axis and at least every coordinate |
| Binning.StepSpans | sparseFlow/sampling.py:16 | n bin widths span exactly from minimum to maximum |
| Binning.Edges | sparseFlow/sampling.py:16 | linspace gives n + 1 edges, the first the minimum, the last the maximum, edge k lying k bin widths above the minimum |
| Binning.EdgesNonDecreasing | sparseFlow/sampling.py:16 | edges over a range whose minimum is at most its maximum ascend |
| Binning.Digitize | sparseFlow/sampling.py:17 | on ascending edges the bin index b has every edge before b at or below the value and every edge from b on above it |
| Binning.DigitizeMonotone | sparseFlow/sampling.py:17 | a larger value never gets a smaller bin index |
| Binning.BinColumn | sparseFlow/sampling.py:15-18 | every bin index is in 1..n+1; the axis maximum, and with n > 0 only the maximum, is in bin n + 1; any other value lies in the half-open interval of its bin; binning preserves the order of values |
| Binning.ConstantAxisOneBin | sparseFlow/sampling.py:15-18 | on a constant axis every row lands in the same bin, n + 1 |
| Binning.PerformBinning | sparseFlow/sampling.py:13-22 | fails exactly when no axis is used but the frame has rows; otherwise every row gets a key with one bin index per used axis, min(number of counts, number of columns) of them, in 1..count+1, equal to that axis's binning of the row |
| Binning.SameCoordinatesSameKey | sparseFlow/sampling.py:20-22 | rows with equal coordinates on every used axis get equal keys |
| Threshold.CountPresent | sparseFlow/sampling.py:40 | a size has a positive count exactly when some cell has it |
| Threshold.MinOf | sparseFlow/sampling.py:40 | the smallest size is present and at most every size |
| Threshold.MaxOf | sparseFlow/sampling.py:40 | the largest size is present and at least every size |
| Threshold.Without | sparseFlow/sampling.py:40 | removing one size keeps exactly the other sizes with their counts |
| Threshold.TallySpec | sparseFlow/sampling.py:40 | value_counts().sort_index() lists each present size once, in strictly ascending order, with its positive number of cells, and no other size |
| Threshold.WeightWithout | sparseFlow/sampling.py:41 | removing the cells of one size removes that size times their number from every weight counting that size |
| Threshold.WalkTally | sparseFlow/sampling.py:39-44 | the running-total loop over the tally returns nothing exactly when no present size reaches the target, and otherwise the first present size whose cells and all smaller ones reach it |
| Threshold.PassSmallest | sparseFlow/sampling.py:40-43 | when the smallest size falls short, the answer is the loop's answer over the other sizes with the smallest size's rows added to the running total |
| Threshold.AllShortIffTotalShort | sparseFlow/sampling.py:39-44 | every present size falls short exactly when there are no cells or all cells together fall short |
| Threshold.FindThresholdIndex | sparseFlow/sampling.py:38-44 | none exactly when there are no cells or all rows fall short of the target; otherwise a present size whose cells of at most that size reach the target, while every smaller present size falls short and the strictly smaller cells fall short or are empty |
| Threshold.BelowCutoffFallsShort | sparseFlow/sampling.py:38-44 | with a positive target the cells strictly below the cutoff hold fewer rows than the target |
| Grouping.ValueCounts | sparseFlow/sampling.py:49 | the occupancy value_counts lists for each grid cell is the number of rows carrying that cell's key, and it is positive |
| Grouping.FindKey | sparseFlow/sampling.py:54 | returns the first cell with the key, or the number of cells when no cell has it |
| Grouping.AddRow | sparseFlow/sampling.py:54 | a row joins the end of its key's cell, every other cell is unchanged, and an unseen key opens a new cell at the end |
| Grouping.AddRowGroups | sparseFlow/sampling.py:54 | adding the next row keeps the grouping invariant (distinct keys, sizes equal occupancies, rows carry their cell's key, every key covered, no empty cell, every row in exactly one cell) |
| Grouping.GroupRows | sparseFlow/sampling.py:49-54 | the cells group the rows: distinct keys, a cell for every key that occurs, no empty cell, each cell holding only rows with its key and as many as carry it, every row in exactly one cell |
| Grouping.CellKeysOccur | sparseFlow/sampling.py:54 | every cell of a grouping belongs to a key some row carries, so together with the covered keys there is one cell per occurring key and no other |
| Grouping.InsertBySize | sparseFlow/sampling.py:50 | inserting into ascending cells keeps them ascending and adds exactly the inserted cell |
| Grouping.SortBySize | sparseFlow/sampling.py:50 | sort_values gives the same cells, each as often as before, in ascending order of occupancy, holding the same rows |
| RandomSample.Sample | sparseFlow/sampling.py:72 | random.sample fails exactly for a negative size or one above the population; otherwise it returns that many elements, none more often than in the population, and the whole population when the size equals it |
| Accumulate.RowsSizedPastBreak | sparseFlow/sampling.py:59-67 | in ascending cells, the cells before the first one of size at least hi already hold every row of size below hi, so breaking there loses none |
| Accumulate.RowsSizedLength | sparseFlow/sampling.py:63 | the rows of cells with occupancy in [lo, hi) number the weight below hi minus the weight below lo |
| Accumulate.RowsOfOccupancy | sparseFlow/sampling.py:59-67 | a row is among the rows of cells with occupancy in [lo, hi) exactly when it is a row of the frame whose key's occupancy is in [lo, hi) |
| Accumulate.CollectCells | sparseFlow/sampling.py:59-67 | with no cutoff the loop fails exactly when there is a cell; with cutoff c it collects, in cell order, exactly the rows of cells below c, counts them, and pools exactly the rows of cells of size c |
| Accumulate.CutoffExists | sparseFlow/sampling.py:49-51 | there is no cutoff exactly when the frame is empty or has fewer rows than the target |
| Accumulate.PoolFits | sparseFlow/sampling.py:69-72 | with a cutoff, the rows still needed never exceed the pool, and are negative exactly when the target is |
| Accumulate.AssembleDistinct | sparseFlow/sampling.py:62-72 | all rows below the cutoff followed by rows drawn from the pool are distinct rows of the frame |
| Accumulate.AssembleOccupancy | sparseFlow/sampling.py:59-72 | such rows all lie in cells of size at most the cutoff, and include every row of a smaller cell |
| Accumulate.RefusedOnlyForNegative | sparseFlow/sampling.py:69-72 | at the cutoff find_threshold_index returns, random.sample refuses the rows still needed exactly when the target is negative |
| Accumulate.AccumulateSorted | sparseFlow/sampling.py:55-73 | for cells in any ascending order and any cutoff: the TypeError exactly when there is no cutoff but there are cells; the ValueError exactly when random.sample refuses, i.e. with a cutoff the rows still needed are negative or more than the pool, and with no cells the target is nonzero; otherwise threshold rows, all rows of the smaller cells in cell order followed by a draw from the cells at the cutoff |
| Accumulate.AccumulateIndicesUntilThreshold | sparseFlow/sampling.py:47-73 | TypeError exactly when the frame has rows but fewer than the target; ValueError exactly when the target is negative or the frame is empty and the target positive; otherwise exactly threshold distinct rows of the frame, every row of a cell below the cutoff among them, none from a cell above it |

## Left out

- `generate_cubic_sample` (sparseFlow/sampling.py:76-100) is not part of this model. It only wires foreign library calls (standard scaling and PCA from scikit-learn) to the core, and adds timing.
- The console output of the cutoff and the remaining count (sparseFlow/sampling.py:52, 70) is not modelled, because it has no effect on the result.
- Seeding of numpy's and Python's random generators (sparseFlow/sampling.py:10, 48) is left out. It is replaced by the caller-supplied `draw` function.
- RandomSample.Sample: models the pool branch of `random.sample` only. CPython switches to a set-based rejection branch for large populations. That branch meets the same contract but draws a different sequence.
- Floating-point behaviour of `linspace`, `digitize` and `ceil` on float products is not modelled: coordinates and shares are exact reals. Float edge artifacts at the extremes of an axis can therefore differ.
- Importance.Ceil: uses unbounded integers. numpy's `astype(int)` casts to int64, and the cast is undefined for scaled shares at or above 2^63 (possible when shares[19] is tiny next to another share). There the source may produce a wrapped, non-positive count that the mask drops, while the model keeps the large count. The contracts of Importance.ScaledShares and Importance.AdjustFeatureImportances describe the exact ceiling, not that out-of-range cast.
- Importance.Multiplier: requires shares[19] to be non-zero when there are 40 or more shares. numpy would divide by zero, giving infinite products whose integer cast is undefined.
- Binning.PerformBinning: returns the keys instead of adding a `grid_cell` column to the frame. For an empty frame with used axes it returns no keys. pandas would compute the minimum of an empty axis as NaN, but no row is binned.
- Binning.PerformBinning: takes bin counts as natural numbers. The counts the importance step produces are all above 2.
- Grouping.SortBySize: fixes one order (stable insertion) among cells of equal occupancy, while pandas' default sort does not promise one. Accumulate.AccumulateSorted is proved for every ascending order of the cells, so its outcome contract holds whatever order pandas picks.
- Threshold.Tally: models `value_counts().sort_index()` on the sequence of cell sizes, not on a pandas Series. The walk consumes only the sizes and their frequencies.
- Grid keys are a type parameter with equality. The tuple structure beyond equality is not used.
