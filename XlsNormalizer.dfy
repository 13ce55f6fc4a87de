/**
 * The id/manager flattener: every non-empty cell from column 2 on of a data row becomes one
 * output row holding the data row's id (column 0) and the cell's text, under an "Id" /
 * "Manager" header. The two workbooks are grids; loading and saving them are left to the
 * caller, who passes the loaded contents in and receives the output file name back.
 */
module XlsNormalization {
  import opened Wrappers
  import opened Strings
  import opened Grids

  const OutputBookFirstColumnTitle := "Id"
  const OutputBookSecondColumnTitle := "Manager"
  const OutputFileSuffix := "-normalized"
  const OutputFileExtension := "xls"

  /** The ids of the data rows: column 0 from row 1 down to the first null or empty cell. */
  function Ids(g: Grid): seq<string> {
    ColumnRun(g, 1, 0)
  }

  /** The output rows for data rows 1..n: for each row, one [id, text] per cell of its run
      from column 2. */
  function FlatRows(g: Grid, n: nat): seq<seq<string>>
    requires n <= |Ids(g)|
  {
    if n == 0 then [] else FlatRows(g, n - 1) + Pairs(Ids(g)[n - 1], RowRun(g, n, 2))
  }

  /** The output rows for all data rows. */
  function Flattened(g: Grid): seq<seq<string>> {
    FlatRows(g, |Ids(g)|)
  }

  /** The number of cells the scan of data rows 1..n visits. */
  function CellCount(g: Grid, n: nat): nat {
    if n == 0 then 0 else CellCount(g, n - 1) + |RowRun(g, n, 2)|
  }

  /** The output book NormalizeFile leaves: the header, then the flattened rows from row 1. */
  function NormalizedBook(input: Grid, output: Grid): Grid {
    WriteRows(WriteRow(output, 0, 0, [OutputBookFirstColumnTitle, OutputBookSecondColumnTitle]), 1, Flattened(input))
  }

  /** The output file's name: the input's stem, the suffix and the extension. */
  function OutputFileUrl(inputFileUrl: string): string {
    FileStem(inputFileUrl) + OutputFileSuffix + "." + OutputFileExtension
  }

  /** One output row per visited cell. */
  lemma {:induction false} FlatRowsLength(g: Grid, n: nat)
    requires n <= |Ids(g)|
    ensures |FlatRows(g, n)| == CellCount(g, n)
  {
    if n > 0 {
      FlatRowsLength(g, n - 1);
    }
  }

  /** Output rows are contiguous in row-then-column order: cell j of data row r's run is
      output row |FlatRows(g, r - 1)| + j (0-based among the flattened rows), holding the
      row's id and the cell's text. */
  lemma {:induction false} FlatRowsAt(g: Grid, n: nat, r: nat, j: nat)
    requires n <= |Ids(g)| && 1 <= r <= n && j < |RowRun(g, r, 2)|
    ensures |FlatRows(g, r - 1)| + j < |FlatRows(g, n)|
    ensures FlatRows(g, n)[|FlatRows(g, r - 1)| + j] == [Ids(g)[r - 1], RowRun(g, r, 2)[j]]
  {
    if r == n {
      PairsAt(Ids(g)[r - 1], RowRun(g, r, 2), j);
    } else {
      FlatRowsAt(g, n - 1, r, j);
    }
  }

  /** Written and read back against the input: cell 2 + j of data row r lands in output row
      o (1-based, after the header) as the row's column-0 text and the cell's text. */
  lemma NormalizedRowAt(input: Grid, output: Grid, r: nat, j: nat)
    requires 1 <= r <= |Ids(input)| && j < |RowRun(input, r, 2)|
    ensures var o := 1 + |FlatRows(input, r - 1)| + j;
      && Get(NormalizedBook(input, output), o, 0) == Get(input, r, 0)
      && Get(NormalizedBook(input, output), o, 1) == Get(input, r, 2 + j)
  {
    var n := |Ids(input)|;
    var o := 1 + |FlatRows(input, r - 1)| + j;
    var header := WriteRow(output, 0, 0, [OutputBookFirstColumnTitle, OutputBookSecondColumnTitle]);
    FlatRowsAt(input, n, r, j);
    WriteRowsGet(header, 1, Flattened(input), o, 0);
    WriteRowsGet(header, 1, Flattened(input), o, 1);
    ColumnRunAt(input, 1, 0, r - 1);
    RowRunAt(input, r, 2, j);
  }

  /** The header row is "Id", "Manager". */
  lemma NormalizedHeader(input: Grid, output: Grid)
    ensures Get(NormalizedBook(input, output), 0, 0) == Some(OutputBookFirstColumnTitle)
    ensures Get(NormalizedBook(input, output), 0, 1) == Some(OutputBookSecondColumnTitle)
  {
    var title := [OutputBookFirstColumnTitle, OutputBookSecondColumnTitle];
    var header := WriteRow(output, 0, 0, title);
    WriteRowsGet(header, 1, Flattened(input), 0, 0);
    WriteRowsGet(header, 1, Flattened(input), 0, 1);
    WriteRowGet(output, 0, 0, title, 0, 0);
    WriteRowGet(output, 0, 0, title, 0, 1);
  }

  /** Column 1 is never read: inputs that differ only there flatten alike. */
  lemma ColumnOneNotRead(g: Grid, g': Grid)
    requires forall r, c :: c != 1 ==> Get(g, r, c) == Get(g', r, c)
    ensures Flattened(g) == Flattened(g')
  {
    ColumnRunSpec(g, 1, 0);
    ColumnRunUnique(g', 1, 0, ColumnRun(g, 1, 0));
    FlatRowsAgree(g, g', |Ids(g)|);
  }

  lemma {:induction false} FlatRowsAgree(g: Grid, g': Grid, n: nat)
    requires forall r, c :: c != 1 ==> Get(g, r, c) == Get(g', r, c)
    requires Ids(g) == Ids(g') && n <= |Ids(g)|
    ensures FlatRows(g, n) == FlatRows(g', n)
  {
    if n > 0 {
      FlatRowsAgree(g, g', n - 1);
      RowRunSpec(g, n, 2);
      RowRunUnique(g', n, 2, RowRun(g, n, 2));
    }
  }

  /** The output file name has exactly one '.'. */
  lemma OutputFileUrlOneDot(inputFileUrl: string)
    ensures multiset(OutputFileUrl(inputFileUrl))['.'] == 1
  {
    OneDot(inputFileUrl, OutputFileSuffix, OutputFileExtension);
  }

  /** The output file name ends with "-normalized.xls", and is just that for a name
      without '.', the empty name included. */
  lemma OutputFileUrlTail(inputFileUrl: string)
    ensures var url := OutputFileUrl(inputFileUrl);
      |url| >= 15 && url[|url| - 15..] == "-normalized.xls"
    ensures '.' !in inputFileUrl ==> OutputFileUrl(inputFileUrl) == "-normalized.xls"
  {
    var tail := OutputFileSuffix + "." + OutputFileExtension;
    assert tail == "-normalized.xls";
    assert OutputFileUrl(inputFileUrl) == FileStem(inputFileUrl) + tail;
    StemThenTail(inputFileUrl, tail);
  }

  /** How far the row scan has got: rows 1..r-1 are flattened and written from row 1,
      and the next output row follows them. */
  ghost predicate RowsScanned(g: Grid, base: Grid, out: Grid, r: int, o: int) {
    && 1 <= r <= |Ids(g)| + 1
    && o == 1 + |FlatRows(g, r - 1)|
    && out == WriteRows(base, 1, FlatRows(g, r - 1))
  }

  /** How far the cell scan of row r has got: besides rows 1..r-1, cells 2..c-1 of row r. */
  ghost predicate CellsScanned(g: Grid, base: Grid, out: Grid, r: int, c: int, o: int) {
    && 1 <= r <= |Ids(g)|
    && 2 <= c <= 2 + |RowRun(g, r, 2)|
    && o == 1 + |FlatRows(g, r - 1)| + (c - 2)
    && out == WriteRows(base, 1, FlatRows(g, r - 1) + Pairs(Ids(g)[r - 1], RowRun(g, r, 2)[..c - 2]))
  }

  lemma ScanStart(g: Grid, base: Grid)
    ensures RowsScanned(g, base, base, 1, 1)
  {
  }

  /** A row whose id is not null or empty is a data row; its cell scan starts at column 2. */
  lemma RowEnter(g: Grid, base: Grid, out: Grid, r: int, o: int)
    requires RowsScanned(g, base, out, r, o) && !IsNullOrEmpty(Get(g, r, 0))
    ensures r <= |Ids(g)| && Get(g, r, 0) == Some(Ids(g)[r - 1])
    ensures CellsScanned(g, base, out, r, 2, o)
  {
    ColumnRunAt(g, 1, 0, r - 1);
    assert RowRun(g, r, 2)[..0] == [];
    assert FlatRows(g, r - 1) + [] == FlatRows(g, r - 1);
  }

  /** A non-empty cell is the next of the run; writing its pair moves the scan on. */
  lemma CellStep(g: Grid, base: Grid, out: Grid, r: int, c: int, o: int)
    requires CellsScanned(g, base, out, r, c, o) && !IsNullOrEmpty(Get(g, r, c))
    ensures c - 2 < |RowRun(g, r, 2)| && Get(g, r, c) == Some(RowRun(g, r, 2)[c - 2])
    ensures CellsScanned(g, base, out[(o, 0) := Ids(g)[r - 1]][(o, 1) := Get(g, r, c).value], r, c + 1, o + 1)
  {
    RowRunAt(g, r, 2, c - 2);
    PairWrite(base, FlatRows(g, r - 1), Ids(g)[r - 1], RowRun(g, r, 2), c - 2);
  }

  /** Writing the pair for value j of a run below the rows already written. */
  lemma PairWrite(base: Grid, before: seq<seq<string>>, id: string, run: seq<string>, j: nat)
    requires j < |run|
    ensures var o := 1 + |before| + j;
      WriteRows(base, 1, before + Pairs(id, run[..j]))[(o, 0) := id][(o, 1) := run[j]]
      == WriteRows(base, 1, before + Pairs(id, run[..j + 1]))
  {
    var rows := before + Pairs(id, run[..j]);
    PairsStep(id, run, j);
    WriteRowsPair(base, 1, rows, id, run[j]);
    assert rows + [[id, run[j]]] == before + Pairs(id, run[..j + 1]);
  }

  /** A null or empty cell ends the row's run: row r is flattened. */
  lemma RowLeave(g: Grid, base: Grid, out: Grid, r: int, c: int, o: int)
    requires CellsScanned(g, base, out, r, c, o) && IsNullOrEmpty(Get(g, r, c))
    ensures RowsScanned(g, base, out, r + 1, o + 0)
  {
    RowRunAt(g, r, 2, c - 2);
    assert RowRun(g, r, 2)[..c - 2] == RowRun(g, r, 2);
  }

  /** A null or empty id ends the row scan: every data row is flattened. */
  lemma ScanDone(g: Grid, base: Grid, out: Grid, r: int, o: int)
    requires RowsScanned(g, base, out, r, o) && IsNullOrEmpty(Get(g, r, 0))
    ensures out == WriteRows(base, 1, Flattened(g))
  {
    ColumnRunAt(g, 1, 0, r - 1);
  }

  /** The flattener's state: the two workbooks. */
  class XlsNormalizer {
    var inputBook: Grid
    var outputBook: Grid

    constructor ()
      ensures inputBook == map[] && outputBook == map[]
    {
      inputBook := map[];
      outputBook := map[];
    }

    /** Flattens the loaded input into the output book under its header and names the file
        the output is saved to. */
    method NormalizeFile(input: Grid, output: Grid, inputFileUrl: string) returns (outputFileUrl: string)
      modifies this
      ensures inputBook == input
      ensures outputBook == NormalizedBook(input, output)
      ensures outputFileUrl == OutputFileUrl(inputFileUrl)
    {
      inputBook := input;
      outputBook := output;
      FormatOutputBook();
      Normalize();
      outputFileUrl := GetOutputFileUrl(inputFileUrl);
    }

    /** Writes the header "Id", "Manager" into row 0. */
    method FormatOutputBook()
      modifies this`outputBook
      ensures outputBook == WriteRow(old(outputBook), 0, 0, [OutputBookFirstColumnTitle, OutputBookSecondColumnTitle])
    {
      outputBook := outputBook[(0, 0) := OutputBookFirstColumnTitle];
      outputBook := outputBook[(0, 1) := OutputBookSecondColumnTitle];
      WriteRowSnoc(old(outputBook), 0, 0, [], OutputBookFirstColumnTitle);
      WriteRowSnoc(old(outputBook), 0, 0, [OutputBookFirstColumnTitle], OutputBookSecondColumnTitle);
    }

    /** Scans data rows from row 1 while column 0 is not null or empty, and their cells from
        column 2 while not null or empty, writing one output row per cell from row 1. */
    method Normalize()
      modifies this`outputBook
      ensures outputBook == WriteRows(old(outputBook), 1, Flattened(inputBook))
    {
      hide *;
      ghost var base := outputBook;
      ghost var n := |Ids(inputBook)|;
      var inputRowIndex := 1;
      var outputRowIndex := 1;
      ScanStart(inputBook, base);
      while !IsNullOrEmpty(Get(inputBook, inputRowIndex, 0))
        invariant RowsScanned(inputBook, base, outputBook, inputRowIndex, outputRowIndex)
        invariant n == |Ids(inputBook)|
        decreases n + 1 - inputRowIndex
      {
        RowEnter(inputBook, base, outputBook, inputRowIndex, outputRowIndex);
        var id := Get(inputBook, inputRowIndex, 0).value;
        var inputCellIndex := 2;
        while !IsNullOrEmpty(Get(inputBook, inputRowIndex, inputCellIndex))
          invariant CellsScanned(inputBook, base, outputBook, inputRowIndex, inputCellIndex, outputRowIndex)
          invariant id == Ids(inputBook)[inputRowIndex - 1] && n == |Ids(inputBook)| && 1 <= inputRowIndex <= n
          invariant inputCellIndex <= 2 + |RowRun(inputBook, inputRowIndex, 2)|
          decreases 2 + |RowRun(inputBook, inputRowIndex, 2)| - inputCellIndex
        {
          CellStep(inputBook, base, outputBook, inputRowIndex, inputCellIndex, outputRowIndex);
          outputBook := outputBook[(outputRowIndex, 0) := id];
          outputBook := outputBook[(outputRowIndex, 1) := Get(inputBook, inputRowIndex, inputCellIndex).value];
          outputRowIndex := outputRowIndex + 1;
          inputCellIndex := inputCellIndex + 1;
        }
        RowLeave(inputBook, base, outputBook, inputRowIndex, inputCellIndex, outputRowIndex);
        inputRowIndex := inputRowIndex + 1;
      }
      ScanDone(inputBook, base, outputBook, inputRowIndex, outputRowIndex);
    }

    /** The concatenated `.`-separated segments but the last, then the suffix and extension. */
    static method GetOutputFileUrl(inputBookFileName: string) returns (outputFileUrl: string)
      ensures outputFileUrl == OutputFileUrl(inputBookFileName)
    {
      outputFileUrl := "";
      var inputFileUrlSplit := Split(inputBookFileName, '.');
      var i := 0;
      while i < |inputFileUrlSplit| - 1
        invariant 0 <= i <= |inputFileUrlSplit|
        invariant i <= |inputFileUrlSplit| - 1 || inputFileUrlSplit == []
        invariant outputFileUrl == Concat(inputFileUrlSplit[..i])
      {
        ConcatAppend(inputFileUrlSplit[..i], inputFileUrlSplit[i]);
        assert inputFileUrlSplit[..i + 1] == inputFileUrlSplit[..i] + [inputFileUrlSplit[i]];
        outputFileUrl := outputFileUrl + inputFileUrlSplit[i];
        i := i + 1;
      }
      outputFileUrl := outputFileUrl + OutputFileSuffix;
      outputFileUrl := outputFileUrl + "." + OutputFileExtension;
    }
  }
}
