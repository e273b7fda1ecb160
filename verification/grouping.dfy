/**
 * The pandas steps between binning and the accumulator: grouping rows by grid key
 * (`groupby` / `value_counts`) and ordering the cells by occupancy (`sort_values`).
 * Rows are identified by their position in the frame.
 */
module Grouping {
  import opened Collections

  /** A grid cell: its key and its member rows, in row order. */
  datatype Cell<K> = Cell(key: K, rows: seq<nat>)

  /** All member rows, cell after cell. */
  function Flatten<K>(cells: seq<Cell<K>>): seq<nat>
  {
    if cells == [] then [] else cells[0].rows + Flatten(cells[1..])
  }

  /** The occupancy of every cell, in cell order (the values of `value_counts`). */
  function Sizes<K>(cells: seq<Cell<K>>): (sizes: seq<nat>)
    ensures |sizes| == |cells|
    ensures forall j :: 0 <= j < |cells| ==> sizes[j] == |cells[j].rows|
  {
    seq(|cells|, j requires 0 <= j < |cells| => |cells[j].rows|)
  }

  /** The number of rows whose grid key is k. */
  function Occupancy<K(==)>(keys: seq<K>, k: K): nat
  {
    multiset(keys)[k]
  }

  /** No two cells share a key. */
  ghost predicate DistinctKeys<K>(cells: seq<Cell<K>>)
  {
    forall j, j' :: 0 <= j < j' < |cells| ==> cells[j].key != cells[j'].key
  }

  /** Every cell is exactly as large as the number of rows with its key. */
  ghost predicate SizesMatch<K>(cells: seq<Cell<K>>, keys: seq<K>)
  {
    forall j :: 0 <= j < |cells| ==> |cells[j].rows| == Occupancy(keys, cells[j].key)
  }

  /** Every row of a cell is a row of the frame and carries the cell's key. */
  ghost predicate RowsCarryKey<K>(cells: seq<Cell<K>>, keys: seq<K>)
  {
    forall j, r: nat {:trigger r in cells[j].rows} :: 0 <= j < |cells| && r in cells[j].rows ==> r < |keys| && keys[r] == cells[j].key
  }

  /** Every key that occurs has a cell. */
  ghost predicate KeysCovered<K>(cells: seq<Cell<K>>, keys: seq<K>)
  {
    forall i :: 0 <= i < |keys| ==> exists j :: 0 <= j < |cells| && cells[j].key == keys[i]
  }

  /** Every row of the frame is in exactly one cell, once. */
  ghost predicate Partitions<K>(cells: seq<Cell<K>>, keys: seq<K>)
  {
    multiset(Flatten(cells)) == multiset(Range(|keys|))
  }

  /** No cell is empty: every cell was opened by a row carrying its key. */
  predicate NoEmptyCells<K>(cells: seq<Cell<K>>)
  {
    forall j :: 0 <= j < |cells| ==> |cells[j].rows| > 0
  }

  /**
   * `cells` groups the rows of `keys`: one cell per distinct key that occurs, and no
   * other; each cell holds only rows with its key, as many as carry that key; and every
   * row is in exactly one cell.
   */
  ghost predicate Groups<K>(cells: seq<Cell<K>>, keys: seq<K>)
  {
    && DistinctKeys(cells)
    && SizesMatch(cells, keys)
    && RowsCarryKey(cells, keys)
    && KeysCovered(cells, keys)
    && NoEmptyCells(cells)
    && Partitions(cells, keys)
  }

  /** Where the cell with key k sits, or |cells| when there is none. */
  function FindKey<K(==)>(cells: seq<Cell<K>>, k: K): (j: nat)
    ensures j <= |cells|
    ensures j < |cells| ==> cells[j].key == k
    ensures forall j' :: 0 <= j' < j ==> cells[j'].key != k
  {
    if cells == [] then 0
    else if cells[0].key == k then 0
    else 1 + FindKey(cells[1..], k)
  }

  /** Put `row`, whose key is k, into the cell for k, opening a new cell when k is new. */
  function AddRow<K(==)>(cells: seq<Cell<K>>, k: K, row: nat): (r: seq<Cell<K>>)
    ensures |cells| <= |r|
    ensures FindKey(cells, k) < |cells| ==> |r| == |cells|
    ensures FindKey(cells, k) < |cells| ==> r[FindKey(cells, k)] == Cell(k, cells[FindKey(cells, k)].rows + [row])
    ensures forall j :: 0 <= j < |cells| && j != FindKey(cells, k) ==> r[j] == cells[j]
    ensures FindKey(cells, k) == |cells| ==> r == cells + [Cell(k, [row])]
  {
    var j := FindKey(cells, k);
    if j < |cells| then cells[j := Cell(k, cells[j].rows + [row])]
    else cells + [Cell(k, [row])]
  }

  /** Flattening distributes over concatenation. */
  lemma {:induction false} FlattenAppend<K>(a: seq<Cell<K>>, b: seq<Cell<K>>)
    ensures Flatten(a + b) == Flatten(a) + Flatten(b)
  {
    if a == [] {
      assert a + b == b;
    } else {
      FlattenAppend(a[1..], b);
      assert (a + b)[0] == a[0];
      assert (a + b)[1..] == a[1..] + b;
      ConcatAssoc(a[0].rows, Flatten(a[1..]), Flatten(b));
    }
  }

  /** Replacing one cell swaps its rows for the new cell's rows in the flattened multiset. */
  lemma {:induction false} FlattenUpdate<K>(cells: seq<Cell<K>>, j: nat, c: Cell<K>)
    requires j < |cells|
    ensures multiset(Flatten(cells[j := c])) + multiset(cells[j].rows) ==
      multiset(Flatten(cells)) + multiset(c.rows)
  {
    var updated := cells[j := c];
    assert updated[1..] == if j == 0 then cells[1..] else cells[1..][j - 1 := c];
    assert Flatten(updated) == updated[0].rows + Flatten(updated[1..]);
    assert Flatten(cells) == cells[0].rows + Flatten(cells[1..]);
    if j > 0 {
      FlattenUpdate(cells[1..], j - 1, c);
      assert cells[1..][j - 1] == cells[j];
      var head, tail, tail' := multiset(cells[0].rows), multiset(Flatten(cells[1..])), multiset(Flatten(updated[1..]));
      assert tail' + multiset(cells[j].rows) == tail + multiset(c.rows);
      assert multiset(Flatten(updated)) == head + tail';
      assert multiset(Flatten(cells)) == head + tail;
      var gone, added := multiset(cells[j].rows), multiset(c.rows);
      assert (head + tail') + gone == head + (tail' + gone);
      assert head + (tail + added) == (head + tail) + added;
    }
  }

  /** One more row with key k raises the occupancy of k by one and leaves the others. */
  /** One more row with key k raises the occupancy of k by one and of no other key. */
  lemma OccupancyAppend<K>(keys: seq<K>, k: K, x: K)
    ensures Occupancy(keys + [k], x) == Occupancy(keys, x) + (if x == k then 1 else 0)
  {
    assert multiset(keys + [k]) == multiset(keys) + multiset{k};
  }

  /** Adding a row never gives two cells the same key. */
  lemma AddRowDistinct<K>(cells: seq<Cell<K>>, k: K, row: nat)
    requires DistinctKeys(cells)
    ensures DistinctKeys(AddRow(cells, k, row))
  {
  }

  /** A key without a cell occurs in no row. */
  lemma NewKeyUnused<K>(cells: seq<Cell<K>>, keys: seq<K>, k: K)
    requires KeysCovered(cells, keys)
    requires FindKey(cells, k) == |cells|
    ensures Occupancy(keys, k) == 0
  {
    forall i | 0 <= i < |keys|
      ensures keys[i] != k
    {
      var j :| 0 <= j < |cells| && cells[j].key == keys[i];
    }
    assert k !in keys;
  }

  /** Adding row |keys| with key k keeps every cell as large as its key's occupancy. */
  lemma AddRowSizes<K>(cells: seq<Cell<K>>, keys: seq<K>, k: K)
    requires DistinctKeys(cells) && SizesMatch(cells, keys) && KeysCovered(cells, keys)
    ensures SizesMatch(AddRow(cells, k, |keys|), keys + [k])
  {
    var n := |keys|;
    var cells' := AddRow(cells, k, n);
    var f := FindKey(cells, k);
    if f == |cells| {
      NewKeyUnused(cells, keys, k);
    }
    forall j | 0 <= j < |cells'|
      ensures |cells'[j].rows| == Occupancy(keys + [k], cells'[j].key)
    {
      OccupancyAppend(keys, k, cells'[j].key);
      if j < |cells| && j != f {
        assert cells'[j] == cells[j];
        assert cells[j].key != k;
      }
    }
  }

  /** Adding row |keys| with key k keeps every row of a cell carrying the cell's key. */
  lemma AddRowCarry<K>(cells: seq<Cell<K>>, keys: seq<K>, k: K)
    requires RowsCarryKey(cells, keys)
    ensures RowsCarryKey(AddRow(cells, k, |keys|), keys + [k])
  {
    var n := |keys|;
    var keys' := keys + [k];
    var cells' := AddRow(cells, k, n);
    var f := FindKey(cells, k);
    forall j, r: nat | 0 <= j < |cells'| && r in cells'[j].rows
      ensures r < |keys'| && keys'[r] == cells'[j].key
    {
      if j == f && j < |cells| {
        assert cells'[j] == Cell(k, cells[j].rows + [n]);
        if r != n {
          assert r in cells[j].rows;
          assert r < n && keys[r] == cells[j].key;
          assert keys'[r] == keys[r];
          assert cells[j].key == k;
        }
      } else if j < |cells| {
        assert cells'[j] == cells[j];
        assert r < n && keys[r] == cells[j].key;
        assert keys'[r] == keys[r];
      } else {
        assert cells'[j] == Cell(k, [n]);
        assert r == n;
      }
    }
  }

  /** Adding row |keys| with key k keeps a cell for every key that occurs, k included. */
  lemma AddRowCovered<K>(cells: seq<Cell<K>>, keys: seq<K>, k: K)
    requires KeysCovered(cells, keys)
    ensures KeysCovered(AddRow(cells, k, |keys|), keys + [k])
  {
    var n := |keys|;
    var keys' := keys + [k];
    var cells' := AddRow(cells, k, n);
    var f := FindKey(cells, k);
    forall i | 0 <= i < |keys'|
      ensures exists j :: 0 <= j < |cells'| && cells'[j].key == keys'[i]
    {
      if i == n {
        assert cells'[f].key == keys'[i];
      } else {
        var j :| 0 <= j < |cells| && cells[j].key == keys[i];
        assert cells'[j].key == cells[j].key;
        assert cells'[j].key == keys'[i];
      }
    }
  }

  /** Adding row |keys| puts the new row into exactly one cell and moves no other row. */
  lemma AddRowPartition<K>(cells: seq<Cell<K>>, keys: seq<K>, k: K)
    requires Partitions(cells, keys)
    ensures Partitions(AddRow(cells, k, |keys|), keys + [k])
  {
    var n: nat := |keys|;
    var f := FindKey(cells, k);
    var before := multiset(Flatten(cells));
    assert Range(n + 1) == Range(n) + [n];
    assert multiset(Range(n + 1)) == before + multiset{n};
    if f < |cells| {
      var old_rows := cells[f].rows;
      FlattenUpdate(cells, f, Cell(k, old_rows + [n]));
      var after := multiset(Flatten(AddRow(cells, k, n)));
      var gone: multiset<nat>, added: multiset<nat> := multiset(old_rows), multiset{n};
      assert multiset(old_rows + [n]) == gone + added;
      assert after + gone == before + (gone + added);
      assert before + (gone + added) == (before + added) + gone;
      MultisetCancel(after, before + added, gone);
    } else {
      FlattenAppend(cells, [Cell(k, [n])]);
      assert Flatten([Cell(k, [n])]) == [n];
    }
  }

  /** Adding a row leaves no cell empty: it grows a cell or opens one holding the row. */
  lemma AddRowNonEmpty<K>(cells: seq<Cell<K>>, k: K, row: nat)
    requires NoEmptyCells(cells)
    ensures NoEmptyCells(AddRow(cells, k, row))
  {
    var f := FindKey(cells, k);
    var cells' := AddRow(cells, k, row);
    forall j | 0 <= j < |cells'|
      ensures |cells'[j].rows| > 0
    {
      if j == f {
        assert row in cells'[j].rows;
      } else {
        assert cells'[j] == cells[j];
      }
    }
  }

  /** Adding the next row keeps the grouping invariant. */
  lemma AddRowGroups<K>(cells: seq<Cell<K>>, keys: seq<K>, k: K)
    requires Groups(cells, keys)
    ensures Groups(AddRow(cells, k, |keys|), keys + [k])
  {
    AddRowDistinct(cells, k, |keys|);
    AddRowSizes(cells, keys, k);
    AddRowCarry(cells, keys, k);
    AddRowCovered(cells, keys, k);
    AddRowNonEmpty(cells, k, |keys|);
    AddRowPartition(cells, keys, k);
  }

  /** Grouping the last row into the cells of all earlier rows groups all rows. */
  lemma GroupNextRow<K>(cells: seq<Cell<K>>, keys: seq<K>)
    requires |keys| > 0 && Groups(cells, keys[..|keys| - 1])
    ensures Groups(AddRow(cells, keys[|keys| - 1], |keys| - 1), keys)
  {
    var n := |keys| - 1;
    AddRowGroups(cells, keys[..n], keys[n]);
    assert keys[..n] + [keys[n]] == keys;
  }

  /**
   * `groupby('grid_cell')`: the cells of the rows of `keys`, built row by row; row i has
   * key keys[i]. The result groups the rows: one cell per distinct key, every row in
   * exactly one cell, and each cell exactly as large as the number of rows with its key.
   */
  function GroupRows<K(==)>(keys: seq<K>): (cells: seq<Cell<K>>)
    ensures Groups(cells, keys)
    decreases |keys|
  {
    if keys == [] then
      assert Range(0) == [];
      []
    else
      var n := |keys| - 1;
      var previous := GroupRows(keys[..n]);
      GroupNextRow(previous, keys);
      AddRow(previous, keys[n], n)
  }

  /** Every cell of a grouping belongs to a key that some row carries. */
  lemma CellKeysOccur<K>(cells: seq<Cell<K>>, keys: seq<K>)
    requires Groups(cells, keys)
    ensures forall j :: 0 <= j < |cells| ==> exists i :: 0 <= i < |keys| && keys[i] == cells[j].key
  {
    forall j | 0 <= j < |cells|
      ensures exists i :: 0 <= i < |keys| && keys[i] == cells[j].key
    {
      var r := cells[j].rows[0];
      assert r in cells[j].rows;
      assert r < |keys| && keys[r] == cells[j].key;
    }
  }

  /**
   * `value_counts()` of the grid keys: the occupancy listed for each grouped cell is the
   * number of rows carrying that cell's key, and it is positive.
   */
  lemma ValueCounts<K>(keys: seq<K>)
    ensures forall j :: 0 <= j < |GroupRows(keys)| ==>
      Sizes(GroupRows(keys))[j] == Occupancy(keys, GroupRows(keys)[j].key) > 0
  {
    var cells := GroupRows(keys);
    assert NoEmptyCells(cells) && SizesMatch(cells, keys);
  }

  /** Cells in ascending order of occupancy. */
  predicate SortedBySize<K>(cells: seq<Cell<K>>)
  {
    forall i, j :: 0 <= i <= j < |cells| ==> |cells[i].rows| <= |cells[j].rows|
  }

  /** A cell no larger than any of a sorted sequence can go in front of it. */
  lemma PrependSorted<K>(h: Cell<K>, rest: seq<Cell<K>>)
    requires SortedBySize(rest)
    requires forall x :: x in rest ==> |h.rows| <= |x.rows|
    ensures SortedBySize([h] + rest)
  {
    var r := [h] + rest;
    forall i, j | 0 <= i <= j < |r|
      ensures |r[i].rows| <= |r[j].rows|
    {
      if i == 0 && j > 0 {
        assert r[j] == rest[j - 1];
      }
    }
  }

  /** Insert one cell into cells already in ascending order of occupancy. */
  function InsertBySize<K(==)>(c: Cell<K>, sorted: seq<Cell<K>>): (r: seq<Cell<K>>)
    requires SortedBySize(sorted)
    ensures SortedBySize(r)
    ensures multiset(r) == multiset(sorted) + multiset{c}
  {
    if sorted == [] || |c.rows| <= |sorted[0].rows| then
      PrependSorted(c, sorted);
      [c] + sorted
    else
      var rest := InsertBySize(c, sorted[1..]);
      assert sorted == [sorted[0]] + sorted[1..];
      HeadStaysFirst(c, sorted, rest);
      PrependSorted(sorted[0], rest);
      [sorted[0]] + rest
  }

  /** The first of the sorted cells is no larger than anything the insertion behind it yields. */
  lemma HeadStaysFirst<K>(c: Cell<K>, sorted: seq<Cell<K>>, rest: seq<Cell<K>>)
    requires SortedBySize(sorted)
    requires sorted != [] && |sorted[0].rows| < |c.rows|
    requires multiset(rest) == multiset(sorted[1..]) + multiset{c}
    ensures forall x :: x in rest ==> |sorted[0].rows| <= |x.rows|
  {
    forall x | x in rest
      ensures |sorted[0].rows| <= |x.rows|
    {
      assert x in multiset(rest);
      if x != c {
        assert x in sorted[1..];
      }
    }
  }

  /** Inserting a cell adds exactly its rows to the flattened rows. */
  lemma {:induction false} InsertFlatten<K>(c: Cell<K>, sorted: seq<Cell<K>>)
    requires SortedBySize(sorted)
    ensures multiset(Flatten(InsertBySize(c, sorted))) == multiset(Flatten(sorted)) + multiset(c.rows)
  {
    if sorted == [] || |c.rows| <= |sorted[0].rows| {
      assert ([c] + sorted)[1..] == sorted;
    } else {
      var rest := InsertBySize(c, sorted[1..]);
      InsertFlatten(c, sorted[1..]);
      assert ([sorted[0]] + rest)[1..] == rest;
      var head, tail, added := multiset(sorted[0].rows), multiset(Flatten(sorted[1..])), multiset(c.rows);
      assert multiset(Flatten([sorted[0]] + rest)) == head + (tail + added);
      assert multiset(Flatten(sorted)) == head + tail;
      assert head + (tail + added) == (head + tail) + added;
    }
  }

  /**
   * `sort_values()` on the occupancy counts: the same cells, each as often as before, in
   * ascending order of occupancy, holding the same rows altogether.
   */
  function SortBySize<K(==)>(cells: seq<Cell<K>>): (r: seq<Cell<K>>)
    ensures SortedBySize(r)
    ensures multiset(r) == multiset(cells)
    ensures multiset(Flatten(r)) == multiset(Flatten(cells))
  {
    if cells == [] then []
    else
      var rest := SortBySize(cells[1..]);
      assert cells == [cells[0]] + cells[1..];
      InsertFlatten(cells[0], rest);
      assert Flatten(cells) == cells[0].rows + Flatten(cells[1..]);
      InsertBySize(cells[0], rest)
  }

  /** A row of the flattened cells belongs to one of them. */
  lemma {:induction false} FlattenMember<K>(cells: seq<Cell<K>>, r: nat)
    requires r in Flatten(cells)
    ensures exists j :: 0 <= j < |cells| && r in cells[j].rows
  {
    if r !in cells[0].rows {
      FlattenMember(cells[1..], r);
      var j :| 0 <= j < |cells| - 1 && r in cells[1..][j].rows;
      assert r in cells[j + 1].rows;
    }
  }
}
