/**
 * The sheet behind the table and workbook interfaces (ITable, IXlsBook), as a sparse map
 * from (row, column) to cell text. A cell that is not in the map reads as null, which is
 * also what the Spire-backed implementations return for an index beyond the used range;
 * writing a cell stores its text under its key.
 */
module Grids {
  import opened Wrappers

  type Grid = map<(int, int), string>

  /** GetValue / GetCellValue: the text of a cell, or null. */
  function Get(g: Grid, r: int, c: int): Option<string> {
    if (r, c) in g then Some(g[(r, c)]) else None
  }

  /** string.IsNullOrEmpty */
  predicate IsNullOrEmpty(v: Option<string>) {
    v == None || v == Some("")
  }

  /** The keys of row `r` at column `c` or beyond: fewer at every step of a scan along the row. */
  function RowKeysFrom(g: Grid, r: int, c: int): set<(int, int)> {
    set k | k in g && k.0 == r && k.1 >= c
  }

  /** The keys of column `c` at row `r` or beyond: fewer at every step of a scan down the column. */
  function ColumnKeysFrom(g: Grid, r: int, c: int): set<(int, int)> {
    set k | k in g && k.1 == c && k.0 >= r
  }

  /** The texts of row `r` read from column `c` rightwards up to the first null or empty cell. */
  function RowRun(g: Grid, r: int, c: int): seq<string>
    decreases RowKeysFrom(g, r, c)
  {
    if IsNullOrEmpty(Get(g, r, c)) then []
    else
      assert RowKeysFrom(g, r, c + 1) < RowKeysFrom(g, r, c) by {
        assert (r, c) in RowKeysFrom(g, r, c);
      }
      [g[(r, c)]] + RowRun(g, r, c + 1)
  }

  /** The texts of column `c` read from row `r` downwards up to the first null or empty cell. */
  function ColumnRun(g: Grid, r: int, c: int): seq<string>
    decreases ColumnKeysFrom(g, r, c)
  {
    if IsNullOrEmpty(Get(g, r, c)) then []
    else
      assert ColumnKeysFrom(g, r + 1, c) < ColumnKeysFrom(g, r, c) by {
        assert (r, c) in ColumnKeysFrom(g, r, c);
      }
      [g[(r, c)]] + ColumnRun(g, r + 1, c)
  }

  /** A row run holds the row's non-empty texts from column `c` on and stops at a null or
      empty cell. */
  lemma {:induction false} RowRunSpec(g: Grid, r: int, c: int)
    ensures forall i :: 0 <= i < |RowRun(g, r, c)| ==> Get(g, r, c + i) == Some(RowRun(g, r, c)[i]) && RowRun(g, r, c)[i] != ""
    ensures IsNullOrEmpty(Get(g, r, c + |RowRun(g, r, c)|))
    decreases RowKeysFrom(g, r, c)
  {
    if !IsNullOrEmpty(Get(g, r, c)) {
      assert RowKeysFrom(g, r, c + 1) < RowKeysFrom(g, r, c) by {
        assert (r, c) in RowKeysFrom(g, r, c);
      }
      RowRunSpec(g, r, c + 1);
      var run := RowRun(g, r, c);
      forall i | 0 <= i < |run|
        ensures Get(g, r, c + i) == Some(run[i]) && run[i] != ""
      {
        if i > 0 {
          assert run[i] == RowRun(g, r, c + 1)[i - 1];
          assert c + i == (c + 1) + (i - 1);
        }
      }
      assert c + |run| == (c + 1) + |RowRun(g, r, c + 1)|;
    }
  }

  /** A column run holds the column's non-empty texts from row `r` on and stops at a null
      or empty cell. */
  lemma {:induction false} ColumnRunSpec(g: Grid, r: int, c: int)
    ensures forall i :: 0 <= i < |ColumnRun(g, r, c)| ==> Get(g, r + i, c) == Some(ColumnRun(g, r, c)[i]) && ColumnRun(g, r, c)[i] != ""
    ensures IsNullOrEmpty(Get(g, r + |ColumnRun(g, r, c)|, c))
    decreases ColumnKeysFrom(g, r, c)
  {
    if !IsNullOrEmpty(Get(g, r, c)) {
      assert ColumnKeysFrom(g, r + 1, c) < ColumnKeysFrom(g, r, c) by {
        assert (r, c) in ColumnKeysFrom(g, r, c);
      }
      ColumnRunSpec(g, r + 1, c);
      var run := ColumnRun(g, r, c);
      forall i | 0 <= i < |run|
        ensures Get(g, r + i, c) == Some(run[i]) && run[i] != ""
      {
        if i > 0 {
          assert run[i] == ColumnRun(g, r + 1, c)[i - 1];
          assert r + i == (r + 1) + (i - 1);
        }
      }
      assert r + |run| == (r + 1) + |ColumnRun(g, r + 1, c)|;
    }
  }

  /** The cell at offset `i` of a row run: a run text inside the run, null or empty just
      past it. */
  lemma RowRunAt(g: Grid, r: int, c: int, i: nat)
    requires i <= |RowRun(g, r, c)|
    ensures i < |RowRun(g, r, c)| ==> Get(g, r, c + i) == Some(RowRun(g, r, c)[i]) && RowRun(g, r, c)[i] != ""
    ensures i == |RowRun(g, r, c)| ==> IsNullOrEmpty(Get(g, r, c + i))
  {
    RowRunSpec(g, r, c);
  }

  /** The cell at offset `i` of a column run: a run text inside the run, null or empty just
      past it. */
  lemma ColumnRunAt(g: Grid, r: int, c: int, i: nat)
    requires i <= |ColumnRun(g, r, c)|
    ensures i < |ColumnRun(g, r, c)| ==> Get(g, r + i, c) == Some(ColumnRun(g, r, c)[i]) && ColumnRun(g, r, c)[i] != ""
    ensures i == |ColumnRun(g, r, c)| ==> IsNullOrEmpty(Get(g, r + i, c))
  {
    ColumnRunSpec(g, r, c);
  }

  /** A row run is the longest run of non-empty cells: any sequence of non-empty texts
      that the row holds from column `c` on and that ends at a null or empty cell is it. */
  lemma {:induction false} RowRunUnique(g: Grid, r: int, c: int, run: seq<string>)
    requires forall i :: 0 <= i < |run| ==> Get(g, r, c + i) == Some(run[i]) && run[i] != ""
    requires IsNullOrEmpty(Get(g, r, c + |run|))
    ensures run == RowRun(g, r, c)
    decreases |run|
  {
    if run != [] {
      assert Get(g, r, c) == Some(run[0]);
      RowRunUnique(g, r, c + 1, run[1..]);
      assert run == [run[0]] + run[1..];
    }
  }

  /** The same for a column run. */
  lemma {:induction false} ColumnRunUnique(g: Grid, r: int, c: int, run: seq<string>)
    requires forall i :: 0 <= i < |run| ==> Get(g, r + i, c) == Some(run[i]) && run[i] != ""
    requires IsNullOrEmpty(Get(g, r + |run|, c))
    ensures run == ColumnRun(g, r, c)
    decreases |run|
  {
    if run != [] {
      assert Get(g, r, c) == Some(run[0]);
      ColumnRunUnique(g, r + 1, c, run[1..]);
      assert run == [run[0]] + run[1..];
    }
  }

  /** A row run from `c` is the cell at `c` followed by the run from `c + 1`. */
  lemma RowRunStep(g: Grid, r: int, c: int)
    requires !IsNullOrEmpty(Get(g, r, c))
    ensures RowRun(g, r, c) == [Get(g, r, c).value] + RowRun(g, r, c + 1)
  {
  }

  /** A column run from `r` is the cell at `r` followed by the run from `r + 1`. */
  lemma ColumnRunStep(g: Grid, r: int, c: int)
    requires !IsNullOrEmpty(Get(g, r, c))
    ensures ColumnRun(g, r, c) == [Get(g, r, c).value] + ColumnRun(g, r + 1, c)
  {
  }

  /** SetValue on the cells (r, c), (r, c + 1), ... in turn. */
  function WriteRow(g: Grid, r: int, c: int, values: seq<string>): Grid
    decreases |values|
  {
    if values == [] then g
    else WriteRow(g, r, c, values[..|values| - 1])[(r, c + |values| - 1) := values[|values| - 1]]
  }

  /** Writing one more value at the end of a row write. */
  lemma WriteRowSnoc(g: Grid, r: int, c: int, values: seq<string>, v: string)
    ensures WriteRow(g, r, c, values + [v]) == WriteRow(g, r, c, values)[(r, c + |values|) := v]
  {
    assert (values + [v])[..|values|] == values;
  }

  /** WriteRow of each row in turn, from column 0, in rows r, r + 1, ... */
  function WriteRows(g: Grid, r: int, rows: seq<seq<string>>): Grid
    decreases |rows|
  {
    if rows == [] then g
    else WriteRow(WriteRows(g, r, rows[..|rows| - 1]), r + |rows| - 1, 0, rows[|rows| - 1])
  }

  /** After a row write a cell holds the value written to it, or what it held before. */
  lemma {:induction false} WriteRowGet(g: Grid, r: int, c: int, values: seq<string>, r': int, c': int)
    ensures Get(WriteRow(g, r, c, values), r', c')
         == if r' == r && c <= c' < c + |values| then Some(values[c' - c]) else Get(g, r', c')
    decreases |values|
  {
    if values != [] {
      WriteRowGet(g, r, c, values[..|values| - 1], r', c');
    }
  }

  /** After writing rows from row `r`, a cell holds the value written to it, or what it held
      before: rows land contiguously and nothing outside them changes. */
  lemma {:induction false} WriteRowsGet(g: Grid, r: int, rows: seq<seq<string>>, r': int, c': int)
    ensures Get(WriteRows(g, r, rows), r', c')
         == if r <= r' < r + |rows| && 0 <= c' < |rows[r' - r]| then Some(rows[r' - r][c'])
            else Get(g, r', c')
    decreases |rows|
  {
    if rows != [] {
      var init := rows[..|rows| - 1];
      WriteRowsGet(g, r, init, r', c');
      WriteRowGet(WriteRows(g, r, init), r + |rows| - 1, 0, rows[|rows| - 1], r', c');
    }
  }

  /** Writing rows then more rows right below them is writing all of them at once. */
  lemma {:induction false} WriteRowsAppend(g: Grid, r: int, rows: seq<seq<string>>, more: seq<seq<string>>)
    ensures WriteRows(WriteRows(g, r, rows), r + |rows|, more) == WriteRows(g, r, rows + more)
    decreases |more|
  {
    if more == [] {
      assert rows + more == rows;
    } else {
      var init := more[..|more| - 1];
      WriteRowsAppend(g, r, rows, init);
      assert (rows + more)[..|rows + more| - 1] == rows + init;
    }
  }

  /** The text a list of (column, text) writes to `column`: the last one for it, if any. */
  function Lookup(cells: seq<(int, string)>, column: int): Option<string>
    decreases |cells|
  {
    if cells == [] then None
    else if cells[|cells| - 1].0 == column then Some(cells[|cells| - 1].1)
    else Lookup(cells[..|cells| - 1], column)
  }

  /** SetValue in row `r` for each (column, text) of `cells` in turn. */
  function PutCells(g: Grid, r: int, cells: seq<(int, string)>): Grid
    decreases |cells|
  {
    if cells == [] then g
    else PutCells(g, r, cells[..|cells| - 1])[(r, cells[|cells| - 1].0) := cells[|cells| - 1].1]
  }

  lemma PutCellsSnoc(g: Grid, r: int, cells: seq<(int, string)>, j: int, v: string)
    ensures PutCells(g, r, cells + [(j, v)]) == PutCells(g, r, cells)[(r, j) := v]
  {
    assert (cells + [(j, v)])[..|cells|] == cells;
  }

  /** After the writes a cell of row `r` holds the last text written to its column, and
      every other cell what it held before. */
  lemma {:induction false} PutCellsGet(g: Grid, r: int, cells: seq<(int, string)>, r': int, c': int)
    ensures Get(PutCells(g, r, cells), r', c')
         == if r' == r && Lookup(cells, c').Some? then Lookup(cells, c') else Get(g, r', c')
    decreases |cells|
  {
    if cells != [] {
      PutCellsGet(g, r, cells[..|cells| - 1], r', c');
    }
  }
  /** The two-cell rows [id, v], one per value v, in order. */
  function Pairs(id: string, values: seq<string>): (rows: seq<seq<string>>)
    ensures |rows| == |values|
    decreases |values|
  {
    if values == [] then [] else Pairs(id, values[..|values| - 1]) + [[id, values[|values| - 1]]]
  }

  lemma {:induction false} PairsAt(id: string, values: seq<string>, j: nat)
    requires j < |values|
    ensures Pairs(id, values)[j] == [id, values[j]]
    decreases |values|
  {
    if j < |values| - 1 {
      PairsAt(id, values[..|values| - 1], j);
    }
  }

  /** One more value gives one more pair at the end. */
  lemma PairsStep(id: string, values: seq<string>, j: nat)
    requires j < |values|
    ensures Pairs(id, values[..j + 1]) == Pairs(id, values[..j]) + [[id, values[j]]]
  {
    assert values[..j + 1][..j] == values[..j];
  }

  /** Writing one more pair below written rows sets its two cells. */
  lemma WriteRowsPair(g: Grid, r: int, rows: seq<seq<string>>, id: string, v: string)
    ensures WriteRows(g, r, rows + [[id, v]]) == WriteRows(g, r, rows)[(r + |rows|, 0) := id][(r + |rows|, 1) := v]
  {
    var h := WriteRows(g, r, rows);
    assert (rows + [[id, v]])[..|rows|] == rows;
    assert WriteRows(g, r, rows + [[id, v]]) == WriteRow(h, r + |rows|, 0, [id, v]);
    WriteRowSnoc(h, r + |rows|, 0, [], id);
    WriteRowSnoc(h, r + |rows|, 0, [id], v);
    assert [] + [id] == [id] && [id] + [v] == [id, v];
  }
}
