/**
 * The id/manager flattener written against the rows of a Spire worksheet: a row is the
 * sequence of its cells' values, and both scans are bounded by the lengths they index.
 * The output sheet is a grid. Loading the input, creating the output workbook and saving
 * it are left to the caller, who passes the rows in and receives the output and the file
 * name back.
 */
module XlsTransformation {
  import opened Wrappers
  import opened Strings
  import opened Grids

  const OutputFirstColumnTitle := "Id"
  const OutputSecondColumnTitle := "Manager"
  const OutputFileSuffix := "-transformed"
  const OutputFileExtension := ".xls"

  /** A worksheet's rows, each the values of its cells. */
  type Rows = seq<seq<string>>

  /** What Transform ends with: the output sheet and the name it is saved under, or the
      index of the row without cells whose first cell it tried to read. */
  datatype Transformation = Transformed(outputBook: Grid, outputFileUrl: string) | RowWithoutCells(rowIndex: int)

  /** The values of `cells` from position c up to the first "" or the end of the row. */
  function CellRun(cells: seq<string>, c: nat): seq<string>
    decreases |cells| - c
  {
    if c >= |cells| || cells[c] == "" then [] else [cells[c]] + CellRun(cells, c + 1)
  }

  /** The run a row contributes: its values from position 2 on (none past the last row). */
  function RowValues(rows: Rows, r: nat): seq<string> {
    if r < |rows| then CellRun(rows[r], 2) else []
  }

  /** The row at which the scan from row r stops: the end of the rows, a row without cells,
      or a row whose first value is "". */
  function ScanEnd(rows: Rows, r: nat): (e: nat)
    ensures r <= e
    decreases |rows| - r
  {
    if r >= |rows| || rows[r] == [] || rows[r][0] == "" then r else ScanEnd(rows, r + 1)
  }

  /** The output rows of the scan from row r: one [id, value] per value of each row's run;
      None when the scan reaches a row without cells. */
  function Scan(rows: Rows, r: nat): Option<Rows>
    decreases |rows| - r
  {
    if r >= |rows| then Some([])
    else if rows[r] == [] then None
    else if rows[r][0] == "" then Some([])
    else match Scan(rows, r + 1)
      case None => None
      case Some(rest) => Some(Pairs(rows[r][0], CellRun(rows[r], 2)) + rest)
  }

  /** The rows of `acc` in front of a scan's rows. */
  function Then(acc: Rows, scan: Option<Rows>): Option<Rows> {
    match scan
    case None => None
    case Some(rest) => Some(acc + rest)
  }

  /** The number of values in the runs of rows r..e-1. */
  function RunsLength(rows: Rows, r: nat, e: nat): nat
    decreases e
  {
    if e <= r then 0 else RunsLength(rows, r, e - 1) + |RowValues(rows, e - 1)|
  }

  /** The sheet the output starts as: the header row "Id", "Manager". */
  function Header(): Grid {
    WriteRow(map[], 0, 0, [OutputFirstColumnTitle, OutputSecondColumnTitle])
  }

  function OutputFileUrl(inputFileUrl: string): string {
    FileStem(inputFileUrl) + OutputFileSuffix + OutputFileExtension
  }

  /** A run holds the row's non-empty values from c on, and stops at the row's end or at "". */
  lemma {:induction false} CellRunAt(cells: seq<string>, c: nat, i: nat)
    requires c <= |cells| && i <= |CellRun(cells, c)|
    ensures c + |CellRun(cells, c)| <= |cells|
    ensures i < |CellRun(cells, c)| ==> c + i < |cells| && CellRun(cells, c)[i] == cells[c + i] != ""
    ensures i == |CellRun(cells, c)| ==> c + i == |cells| || cells[c + i] == ""
    decreases |cells| - c
  {
    if c < |cells| && cells[c] != "" {
      CellRunAt(cells, c + 1, if i > 0 then i - 1 else 0);
    }
  }

  /** The scan fails exactly when it stops at a row without cells. */
  lemma {:induction false} ScanFails(rows: Rows, r: nat)
    ensures Scan(rows, r) == None <==> ScanEnd(rows, r) < |rows| && rows[ScanEnd(rows, r)] == []
    decreases |rows| - r
  {
    if r < |rows| && rows[r] != [] && rows[r][0] != "" {
      ScanFails(rows, r + 1);
    }
  }

  /** A successful scan has one output row per value of the runs of the rows it passes. */
  lemma {:induction false} ScanLength(rows: Rows, r: nat)
    requires Scan(rows, r).Some?
    ensures |Scan(rows, r).value| == RunsLength(rows, r, ScanEnd(rows, r))
    decreases |rows| - r
  {
    if r < |rows| && rows[r] != [] && rows[r][0] != "" {
      ScanLength(rows, r + 1);
      RunsLengthFront(rows, r, ScanEnd(rows, r));
    }
  }

  lemma {:induction false} RunsLengthFront(rows: Rows, r: nat, e: nat)
    requires r < e
    ensures RunsLength(rows, r, e) == |RowValues(rows, r)| + RunsLength(rows, r + 1, e)
    decreases e
  {
    if e - 1 > r {
      RunsLengthFront(rows, r, e - 1);
    }
  }

  /** Output rows are in input order: value j of the run of row q, a row the scan from r
      passes, is output row RunsLength(rows, r, q) + j, holding row q's id and that value. */
  lemma {:induction false} ScanAt(rows: Rows, r: nat, q: nat, j: nat)
    requires Scan(rows, r).Some? && r <= q < ScanEnd(rows, r) && j < |RowValues(rows, q)|
    ensures q < |rows| && rows[q] != [] && 2 + j < |rows[q]|
    ensures RunsLength(rows, r, q) + j < |Scan(rows, r).value|
    ensures Scan(rows, r).value[RunsLength(rows, r, q) + j] == [rows[q][0], rows[q][2 + j]]
    decreases q - r
  {
    var run := Pairs(rows[r][0], CellRun(rows[r], 2));
    var rest := Scan(rows, r + 1).value;
    if q == r {
      PairsAt(rows[r][0], CellRun(rows[r], 2), j);
      CellRunAt(rows[r], 2, j);
    } else {
      ScanAt(rows, r + 1, q, j);
      RunsLengthFront(rows, r, q);
      assert Scan(rows, r).value == run + rest;
    }
  }

  /** The output sheet's header row is "Id", "Manager". */
  lemma HeaderCells()
    ensures Get(Header(), 0, 0) == Some(OutputFirstColumnTitle)
    ensures Get(Header(), 0, 1) == Some(OutputSecondColumnTitle)
  {
    WriteRowGet(map[], 0, 0, [OutputFirstColumnTitle, OutputSecondColumnTitle], 0, 0);
    WriteRowGet(map[], 0, 0, [OutputFirstColumnTitle, OutputSecondColumnTitle], 0, 1);
  }

  /** The output file name has exactly one '.'. */
  lemma OutputFileUrlOneDot(inputFileUrl: string)
    ensures multiset(OutputFileUrl(inputFileUrl))['.'] == 1
  {
    var stem := FileStem(inputFileUrl);
    assert stem + OutputFileSuffix + OutputFileExtension == stem + OutputFileSuffix + "." + "xls";
    OneDot(inputFileUrl, OutputFileSuffix, "xls");
  }

  /** The output file name ends with "-transformed.xls", and is just that for a name
      without '.'. */
  lemma OutputFileUrlTail(inputFileUrl: string)
    ensures var url := OutputFileUrl(inputFileUrl);
      |url| >= 16 && url[|url| - 16..] == "-transformed.xls"
    ensures '.' !in inputFileUrl ==> OutputFileUrl(inputFileUrl) == "-transformed.xls"
  {
    var tail := OutputFileSuffix + OutputFileExtension;
    assert tail == "-transformed.xls";
    StemThenTail(inputFileUrl, tail);
  }

  /** The row scan's state before row r: `acc` has been written from row 1, and what the
      scan from row 1 produces is `acc` followed by what it produces from row r. */
  ghost predicate RowsScanned(rows: Rows, base: Grid, out: Grid, acc: Rows, r: int, o: int) {
    && 1 <= r
    && o == 1 + |acc|
    && out == WriteRows(base, 1, acc)
    && Scan(rows, 1) == Then(acc, Scan(rows, r))
    && ScanEnd(rows, 1) == ScanEnd(rows, r)
  }

  /** The cell scan's state in row r before position c: `values` is the run so far. */
  ghost predicate CellsScanned(rows: Rows, base: Grid, out: Grid, acc: Rows, r: int, values: seq<string>, c: int, o: int) {
    && 1 <= r < |rows| && rows[r] != [] && rows[r][0] != "" && 2 <= c
    && CellRun(rows[r], 2) == values + CellRun(rows[r], c)
    && o == 1 + |acc| + |values|
    && out == WriteRows(base, 1, acc + Pairs(rows[r][0], values))
    && Scan(rows, 1) == Then(acc, Scan(rows, r))
    && ScanEnd(rows, 1) == ScanEnd(rows, r)
  }

  lemma RowEnter(rows: Rows, base: Grid, out: Grid, acc: Rows, r: int, o: int)
    requires RowsScanned(rows, base, out, acc, r, o) && r < |rows| && rows[r] != [] && rows[r][0] != ""
    ensures CellsScanned(rows, base, out, acc, r, [], 2, o)
  {
    assert acc + Pairs(rows[r][0], []) == acc;
  }

  lemma CellStep(rows: Rows, base: Grid, out: Grid, acc: Rows, r: int, values: seq<string>, c: int, o: int)
    requires CellsScanned(rows, base, out, acc, r, values, c, o) && c < |rows[r]| && rows[r][c] != ""
    ensures CellsScanned(rows, base, out[(o, 0) := rows[r][0]][(o, 1) := rows[r][c]], acc, r, values + [rows[r][c]], c + 1, o + 1)
  {
    var id := rows[r][0];
    var v := rows[r][c];
    assert CellRun(rows[r], c) == [v] + CellRun(rows[r], c + 1);
    assert Pairs(id, values + [v]) == Pairs(id, values) + [[id, v]] by {
      assert (values + [v])[..|values|] == values;
    }
    WriteRowsPair(base, 1, acc + Pairs(id, values), id, v);
    assert acc + Pairs(id, values) + [[id, v]] == acc + Pairs(id, values + [v]);
  }

  lemma RowLeave(rows: Rows, base: Grid, out: Grid, acc: Rows, r: int, values: seq<string>, c: int, o: int)
    requires CellsScanned(rows, base, out, acc, r, values, c, o) && (c >= |rows[r]| || rows[r][c] == "")
    ensures RowsScanned(rows, base, out, acc + Pairs(rows[r][0], values), r + 1, o)
  {
    assert values + [] == values;
    var acc' := acc + Pairs(rows[r][0], values);
    match Scan(rows, r + 1)
    case None =>
    case Some(rest) =>
      assert acc + (Pairs(rows[r][0], values) + rest) == acc' + rest;
  }

  /** Reads the rows from row 1 up to the end of the rows or the first row whose first
      value is "", and each row's values from position 2 up to its end or the first "",
      writing one output row [id, value] per value from row 1 under the header. */
  method Transform(inputRows: Rows, inputFileUrl: string) returns (result: Transformation)
    ensures result.RowWithoutCells? <==> Scan(inputRows, 1) == None
    ensures result.RowWithoutCells? ==> result.rowIndex == ScanEnd(inputRows, 1)
    ensures result.Transformed? ==>
      && result.outputBook == WriteRows(Header(), 1, Scan(inputRows, 1).value)
      && result.outputFileUrl == OutputFileUrl(inputFileUrl)
  {
    hide *;
    var outputRows: Grid := map[];
    outputRows := outputRows[(0, 0) := OutputFirstColumnTitle];
    outputRows := outputRows[(0, 1) := OutputSecondColumnTitle];
    HeaderWrite();
    ghost var acc: Rows := [];
    var outputRowIndex := 1;
    var inputRowIndex := 1;
    ScanStart(inputRows);
    while inputRowIndex < |inputRows|
      invariant RowsScanned(inputRows, Header(), outputRows, acc, inputRowIndex, outputRowIndex)
      decreases |inputRows| - inputRowIndex
    {
      if |inputRows[inputRowIndex]| == 0 {
        ScanStopsWithoutCells(inputRows, Header(), outputRows, acc, inputRowIndex, outputRowIndex);
        return RowWithoutCells(inputRowIndex);
      }
      if inputRows[inputRowIndex][0] == "" {
        break;
      }
      var id := inputRows[inputRowIndex][0];
      ghost var values: seq<string> := [];
      var inputCellIndex := 2;
      RowEnter(inputRows, Header(), outputRows, acc, inputRowIndex, outputRowIndex);
      while inputCellIndex < |inputRows[inputRowIndex]| && inputRows[inputRowIndex][inputCellIndex] != ""
        invariant CellsScanned(inputRows, Header(), outputRows, acc, inputRowIndex, values, inputCellIndex, outputRowIndex)
        invariant id == inputRows[inputRowIndex][0]
        decreases |inputRows[inputRowIndex]| - inputCellIndex
      {
        CellStep(inputRows, Header(), outputRows, acc, inputRowIndex, values, inputCellIndex, outputRowIndex);
        outputRows := outputRows[(outputRowIndex, 0) := id];
        outputRows := outputRows[(outputRowIndex, 1) := inputRows[inputRowIndex][inputCellIndex]];
        values := values + [inputRows[inputRowIndex][inputCellIndex]];
        outputRowIndex := outputRowIndex + 1;
        inputCellIndex := inputCellIndex + 1;
      }
      RowLeave(inputRows, Header(), outputRows, acc, inputRowIndex, values, inputCellIndex, outputRowIndex);
      acc := acc + Pairs(id, values);
      inputRowIndex := inputRowIndex + 1;
    }
    ScanStops(inputRows, Header(), outputRows, acc, inputRowIndex, outputRowIndex);
    var outputFileUrl := GetOutputFileUrl(inputFileUrl);
    result := Transformed(outputRows, outputFileUrl);
  }

  lemma HeaderWrite()
    ensures map[][(0, 0) := OutputFirstColumnTitle][(0, 1) := OutputSecondColumnTitle] == Header()
  {
    WriteRowSnoc(map[], 0, 0, [], OutputFirstColumnTitle);
    WriteRowSnoc(map[], 0, 0, [OutputFirstColumnTitle], OutputSecondColumnTitle);
    assert [] + [OutputFirstColumnTitle] == [OutputFirstColumnTitle];
    assert [OutputFirstColumnTitle] + [OutputSecondColumnTitle] == [OutputFirstColumnTitle, OutputSecondColumnTitle];
    assert WriteRow(map[], 0, 0, []) == map[];
  }

  lemma ScanStart(rows: Rows)
    ensures RowsScanned(rows, Header(), Header(), [], 1, 1)
  {
    match Scan(rows, 1)
    case None =>
    case Some(s) => assert [] + s == s;
  }

  /** The scan stops at the row without cells and fails there. */
  lemma ScanStopsWithoutCells(rows: Rows, base: Grid, out: Grid, acc: Rows, r: int, o: int)
    requires RowsScanned(rows, base, out, acc, r, o) && r < |rows| && rows[r] == []
    ensures Scan(rows, 1) == None && ScanEnd(rows, 1) == r
  {
  }

  /** The scan stops at the end of the rows or at a row whose first value is "": the rows
      written are all it produces. */
  lemma ScanStops(rows: Rows, base: Grid, out: Grid, acc: Rows, r: int, o: int)
    requires RowsScanned(rows, base, out, acc, r, o) && (r >= |rows| || (rows[r] != [] && rows[r][0] == ""))
    ensures Scan(rows, 1) == Some(acc) && out == WriteRows(base, 1, acc)
  {
    assert acc + [] == acc;
  }

  /** The concatenated `.`-separated segments but the last, then "-transformed.xls". */
  method GetOutputFileUrl(inputFileUrl: string) returns (outputFileUrl: string)
    ensures outputFileUrl == OutputFileUrl(inputFileUrl)
  {
    outputFileUrl := "";
    var inputFileUrlSplit := Split(inputFileUrl, '.');
    var i := 0;
    while i < |inputFileUrlSplit| - 1
      invariant 0 <= i <= |inputFileUrlSplit|
      invariant i <= |inputFileUrlSplit| - 1 || inputFileUrlSplit == []
      invariant outputFileUrl == Concat(inputFileUrlSplit[..i])
    {
      ConcatAppend(inputFileUrlSplit[..i], inputFileUrlSplit[i]);
      assert inputFileUrlSplit[..i + 1] == inputFileUrlSplit[..i] + [inputFileUrlSplit[i]];
      outputFileUrl := outputFileUrl + inputFileUrlSplit[i];
      i := i + 1;
    }
    outputFileUrl := outputFileUrl + OutputFileSuffix;
    outputFileUrl := outputFileUrl + OutputFileExtension;
  }
}
