/**
 * The OpenXML-backed table: a sheet of row elements, each holding cell elements with an
 * A1-style reference and, for text, an index into the workbook's shared-string table
 * (ECMA-376 Part 1, section 18.4). The package, its parts and the files are not modelled:
 * the sheet data and the shared-string table are sequences held by the table.
 */
module TableClasses {
  import opened Wrappers
  import opened Seqs
  import opened CellReference

  /** The largest Int32: int.Parse throws above it. */
  const Int32Max := 0x7FFF_FFFF

  /** A cell handed to AddRow: a column index and a text. */
  datatype TableCell = TableCell(columnIndex: int, value: string)

  /** A cell as GetRow hands it back: the 0-based row and column of its reference and its text. */
  datatype ReadCell = ReadCell(rowIndex: int, columnIndex: int, value: string)

  /** A cell element: its reference, whether its data type is SharedString, and its inner
      text (for a shared-string cell, the decimal index of its shared string). */
  datatype SheetCell = SheetCell(reference: string, shared: bool, text: string)

  /** A row element: its RowIndex attribute and its cell elements. */
  datatype SheetRow = SheetRow(rowIndex: int, cells: seq<SheetCell>)

  /** GetRow's answer: null at or past the row count; ElementAt throws for a negative index;
      otherwise the row's cells, each None where converting it throws. */
  datatype RowRead = NoRow | OutOfRange | RowCells(cells: seq<Option<ReadCell>>)

  /** The digit characters of `s`, in order. */
  function Digits(s: string): (d: string)
    ensures |d| <= |s|
    decreases |s|
  {
    if s == [] then [] else Digits(s[..|s| - 1]) + (if IsDigit(s[|s| - 1]) then [s[|s| - 1]] else [])
  }

  /** The characters of `s` that are not digits, in order. */
  function NonDigits(s: string): (n: string)
    ensures |n| <= |s|
    decreases |s|
  {
    if s == [] then [] else NonDigits(s[..|s| - 1]) + (if IsDigit(s[|s| - 1]) then [] else [s[|s| - 1]])
  }

  /** Digits keeps exactly the digits and NonDigits exactly the rest. */
  lemma {:induction false} DigitsSpec(s: string)
    ensures AllDigits(Digits(s))
    ensures forall i :: 0 <= i < |NonDigits(s)| ==> !IsDigit(NonDigits(s)[i])
    ensures |Digits(s)| + |NonDigits(s)| == |s|
    decreases |s|
  {
    if s != [] {
      DigitsSpec(s[..|s| - 1]);
    }
  }

  lemma {:induction false} DigitsAppend(s: string, t: string)
    ensures Digits(s + t) == Digits(s) + Digits(t)
    ensures NonDigits(s + t) == NonDigits(s) + NonDigits(t)
    decreases |t|
  {
    if t == [] {
      assert s + t == s;
    } else {
      var init := t[..|t| - 1];
      assert (s + t)[..|s + t| - 1] == s + init;
      DigitsAppend(s, init);
    }
  }

  /** A string of letters has no digits; a string of digits has nothing else. */
  lemma {:induction false} DigitsOfPure(s: string)
    ensures AllLetters(s) ==> Digits(s) == [] && NonDigits(s) == s
    ensures AllDigits(s) ==> Digits(s) == s && NonDigits(s) == []
    decreases |s|
  {
    if s != [] {
      DigitsOfPure(s[..|s| - 1]);
      assert s == s[..|s| - 1] + [s[|s| - 1]];
    }
  }

  /** ConvertToColumnIndex: the first letter's distance from 'A'; an empty name throws. */
  function ConvertToColumnIndex(columnName: string): (index: Option<int>)
    ensures index == None <==> columnName == []
  {
    if columnName == [] then None else Some(columnName[0] as int - 65)
  }

  /** Reading a column name back gives the column exactly for the one-letter names: from
      column 26 on, only the first letter is read. */
  lemma ColumnIndexRoundTrip(i: int)
    requires i >= 0
    ensures ConvertToColumnIndex(ColumnLetters(i + 1)) == Some(i) <==> i < 26
  {
    ColumnLettersLength(i + 1);
    var name := ColumnLetters(i + 1);
    assert IsLetter(name[0]);
  }

  /** The white space int.Parse skips at either end under NumberStyles.Integer: U+0009..U+000D
      and the space. */
  predicate IsParseWhite(c: char) { c == ' ' || '\t' <= c <= '\r' }

  predicate AllParseWhite(s: string) { forall i :: 0 <= i < |s| ==> IsParseWhite(s[i]) }

  /** `s` without its leading parse white space. */
  function SkipLeadingWhite(s: string): (r: string)
    ensures |r| <= |s|
    ensures r == [] || !IsParseWhite(r[0])
    decreases |s|
  {
    if s != [] && IsParseWhite(s[0]) then SkipLeadingWhite(s[1..]) else s
  }

  /** `s` without its trailing parse white space. */
  function SkipTrailingWhite(s: string): (r: string)
    ensures |r| <= |s|
    ensures r == [] || !IsParseWhite(r[|r| - 1])
    decreases |s|
  {
    if s != [] && IsParseWhite(s[|s| - 1]) then SkipTrailingWhite(s[..|s| - 1]) else s
  }

  /** int.Parse with NumberStyles.Integer: white space at either end, at most one leading
      '+' or '-', then ASCII digits whose signed value lies within Int32; None where it
      throws. */
  function ParseInt32(text: string): (n: Option<int>)
    ensures n.Some? ==> -Int32Max - 1 <= n.value <= Int32Max
  {
    var body := SkipTrailingWhite(SkipLeadingWhite(text));
    var signed := body != [] && (body[0] == '+' || body[0] == '-');
    var digits := if signed then body[1..] else body;
    if digits == [] || !AllDigits(digits) then None
    else
      var magnitude: int := DecimalValue(digits);
      var v := if signed && body[0] == '-' then -magnitude else magnitude;
      if v < -Int32Max - 1 || v > Int32Max then None else Some(v)
  }

  /** On a plain digit string, int.Parse reads its decimal value, failing only when the
      string is empty or the value exceeds Int32.MaxValue. */
  lemma ParseInt32Digits(digits: string)
    requires AllDigits(digits)
    ensures ParseInt32(digits) == if digits == [] || DecimalValue(digits) > Int32Max then None else Some(DecimalValue(digits))
  {
    if digits != [] {
      assert IsDigit(digits[0]) && IsDigit(digits[|digits| - 1]);
      assert SkipLeadingWhite(digits) == digits;
      assert SkipTrailingWhite(digits) == digits;
    }
  }

  /** int.Parse reads back what Int32.ToString prints. */
  lemma ParseInt32OfIntToDecimal(n: int)
    requires -Int32Max - 1 <= n <= Int32Max
    ensures ParseInt32(IntToDecimal(n)) == Some(n)
  {
    var m := if n < 0 then -n else n;
    var digits := NatToDecimal(m);
    DecimalValueOfNatToDecimal(m);
    var text := IntToDecimal(n);
    assert text[0] == '-' || IsDigit(text[0]);
    assert IsDigit(text[|text| - 1]);
    assert SkipLeadingWhite(text) == text;
    assert SkipTrailingWhite(text) == text;
    if n < 0 {
      assert text[1..] == digits;
    }
  }

  lemma {:induction false} LeadingWhiteSkipped(w: string, t: string)
    requires AllParseWhite(w)
    ensures SkipLeadingWhite(w + t) == SkipLeadingWhite(t)
    decreases |w|
  {
    if w != [] {
      assert (w + t)[0] == w[0] && IsParseWhite(w[0]);
      assert (w + t)[1..] == w[1..] + t;
      var rest := w[1..];
      assert AllParseWhite(rest) by {
        forall i | 0 <= i < |rest| ensures IsParseWhite(rest[i]) {
          assert rest[i] == w[i + 1];
        }
      }
      LeadingWhiteSkipped(rest, t);
    } else {
      assert w + t == t;
    }
  }

  lemma {:induction false} TrailingWhiteSkipped(t: string, w: string)
    requires AllParseWhite(w)
    ensures SkipTrailingWhite(t + w) == SkipTrailingWhite(t)
    decreases |w|
  {
    if w != [] {
      assert (t + w)[|t + w| - 1] == w[|w| - 1] && IsParseWhite(w[|w| - 1]);
      assert (t + w)[..|t + w| - 1] == t + w[..|w| - 1];
      var init := w[..|w| - 1];
      assert AllParseWhite(init) by {
        forall i | 0 <= i < |init| ensures IsParseWhite(init[i]) {
          assert init[i] == w[i];
        }
      }
      TrailingWhiteSkipped(t, init);
    } else {
      assert t + w == t;
    }
  }

  lemma {:induction false} LeadingSkipAppend(s: string, t: string)
    ensures SkipLeadingWhite(s) != [] ==> SkipLeadingWhite(s + t) == SkipLeadingWhite(s) + t
    ensures SkipLeadingWhite(s) == [] ==> SkipLeadingWhite(s + t) == SkipLeadingWhite(t)
    decreases |s|
  {
    if s != [] {
      assert (s + t)[0] == s[0];
      if IsParseWhite(s[0]) {
        assert (s + t)[1..] == s[1..] + t;
        LeadingSkipAppend(s[1..], t);
      }
    } else {
      assert s + t == t;
    }
  }

  /** White space around the text changes nothing int.Parse reads. */
  lemma ParseInt32IgnoresWhite(w: string, text: string, w': string)
    requires AllParseWhite(w) && AllParseWhite(w')
    ensures ParseInt32(w + text + w') == ParseInt32(text)
  {
    assert w + text + w' == w + (text + w');
    LeadingWhiteSkipped(w, text + w');
    LeadingSkipAppend(text, w');
    if SkipLeadingWhite(text) != [] {
      TrailingWhiteSkipped(SkipLeadingWhite(text), w');
    } else {
      LeadingWhiteSkipped(w', []);
      assert w' + [] == w';
    }
  }

  /** White space at either end is skipped: " 3" and "3 " read as 3. */
  lemma ParseInt32PaddedExamples()
    ensures ParseInt32(" 3") == Some(3) && ParseInt32("3 ") == Some(3)
  {
    ParseInt32IgnoresWhite(" ", "3", "");
    ParseInt32IgnoresWhite("", "3", " ");
    assert " 3" == " " + "3" + "" && "3 " == "" + "3" + " ";
    ParseInt32Digits("3");
  }

  /** One leading sign before a digit string is read: '-' negates the value; a sign with
      no digits fails. */
  lemma ParseInt32Signed(sign: char, digits: string)
    requires sign == '+' || sign == '-'
    requires AllDigits(digits)
    ensures digits == [] ==> ParseInt32([sign] + digits) == None
    ensures digits != [] && DecimalValue(digits) <= Int32Max ==>
      ParseInt32([sign] + digits) == Some(if sign == '-' then 0 - DecimalValue(digits) as int else DecimalValue(digits))
  {
    var text := [sign] + digits;
    assert text[0] == sign;
    if digits != [] {
      assert text[|text| - 1] == digits[|digits| - 1];
      assert IsDigit(digits[|digits| - 1]);
    }
    assert SkipLeadingWhite(text) == text;
    assert SkipTrailingWhite(text) == text;
    assert text[1..] == digits;
  }

  /** A leading sign is read: "+3" is 3, "-3" is -3 and "-0" is 0; a sign alone fails. */
  lemma ParseInt32SignExamples()
    ensures ParseInt32("+3") == Some(3) && ParseInt32("-3") == Some(-3)
    ensures ParseInt32("-0") == Some(0) && ParseInt32("+") == None
  {
    assert DecimalValue("3") == 3 && DecimalValue("0") == 0;
    ParseInt32Signed('+', "3");
    assert "+3" == ['+'] + "3";
    ParseInt32Signed('-', "3");
    assert "-3" == ['-'] + "3";
    ParseInt32Signed('-', "0");
    assert "-0" == ['-'] + "0";
    ParseInt32Signed('+', "");
    assert "+" == ['+'] + "";
  }

  /** GetCellValue: a shared-string cell's text is the shared string its inner text
      indexes. An inner text int.Parse rejects throws; an index past the table's end gets
      null from GetElementSafe, which is then dereferenced; a negative index makes the
      element list's indexer throw. Any other cell's text is its inner text. */
  function CellValue(cell: SheetCell, strings: seq<string>): (v: Option<string>)
    ensures !cell.shared ==> v == Some(cell.text)
    ensures cell.shared && v.Some? ==> v.value in strings
    ensures cell.shared && ParseInt32(cell.text).None? ==> v.None?
  {
    if !cell.shared then Some(cell.text)
    else match ParseInt32(cell.text)
      case None => None
      case Some(k) => if 0 <= k < |strings| then Some(strings[k]) else None
  }

  /** ConvertToTableCell: the reference's digits are the 1-based row, its other characters
      the column name; None where parsing the row, indexing the name or reading the value
      throws. */
  function TableCellOf(cell: SheetCell, strings: seq<string>): (r: Option<ReadCell>) {
    var rowPart := Digits(cell.reference);
    var columnPart := NonDigits(cell.reference);
    match ParseInt32(rowPart)
    case None => None
    case Some(row) =>
      match ConvertToColumnIndex(columnPart)
      case None => None
      case Some(column) =>
        match CellValue(cell, strings)
        case None => None
        case Some(v) => Some(ReadCell(row - 1, column, v))
  }

  /** The shared-string table and index after interning `text`: its first occurrence, or a
      new last entry. */
  function Intern(strings: seq<string>, text: string): (seq<string>, nat) {
    if text in strings then (strings, FirstIndex(strings, text)) else (strings + [text], |strings|)
  }

  /** Interning finds or appends `text`, keeps every earlier entry, and keeps a table of
      distinct entries distinct. */
  lemma InternSpec(strings: seq<string>, text: string)
    ensures var (strings', k) := Intern(strings, text);
      && k < |strings'| && strings'[k] == text
      && strings'[..|strings|] == strings
      && (text in strings ==> strings' == strings)
      && (text !in strings ==> |strings'| == |strings| + 1)
      && (Distinct(strings) ==> Distinct(strings'))
  {
    var strings' := (strings + [text]);
    assert strings'[..|strings|] == strings;
  }

  /** Interning the same text again changes nothing and returns the same index. */
  lemma InternIdempotent(strings: seq<string>, text: string)
    ensures Intern(Intern(strings, text).0, text) == Intern(strings, text)
  {
    var strings' := Intern(strings, text).0;
    if text !in strings {
      assert strings'[|strings|] == text;
    }
  }

  /** The reference AddRow gives the cell in `column` of the 1-based row `r`. */
  function CellReferenceOf(column: int, r: int): string {
    ColumnLetters(column + 1) + IntToDecimal(r)
  }

  /** AddRow's cell elements for `cells` in row `r`, and the shared-string table after
      interning each cell's text in turn. */
  function AddCells(strings: seq<string>, cells: seq<TableCell>, r: int): (seq<SheetCell>, seq<string>)
    decreases |cells|
  {
    if cells == [] then ([], strings)
    else
      var before := AddCells(strings, cells[..|cells| - 1], r);
      var cell := cells[|cells| - 1];
      var interned := Intern(before.1, cell.value);
      (before.0 + [SheetCell(CellReferenceOf(cell.columnIndex, r), true, NatToDecimal(interned.1))], interned.0)
  }

  lemma {:induction false} AddCellsLength(strings: seq<string>, cells: seq<TableCell>, r: int)
    ensures |AddCells(strings, cells, r).0| == |cells|
    decreases |cells|
  {
    if cells != [] {
      AddCellsLength(strings, cells[..|cells| - 1], r);
    }
  }

  /** The i-th cell element AddRow writes: its reference, and the index of its text in the
      table as it stood after the cells before it; interning only ever appends. */
  lemma {:induction false} AddCellsAt(strings: seq<string>, cells: seq<TableCell>, r: int, i: nat)
    requires i < |cells|
    ensures |AddCells(strings, cells, r).0| == |cells|
    ensures var interned := Intern(AddCells(strings, cells[..i], r).1, cells[i].value);
      && AddCells(strings, cells, r).0[i]
         == SheetCell(CellReferenceOf(cells[i].columnIndex, r), true, NatToDecimal(interned.1))
      && interned.1 < |interned.0| <= |AddCells(strings, cells, r).1|
      && AddCells(strings, cells, r).1[..|interned.0|] == interned.0
    decreases |cells|
  {
    var init := cells[..|cells| - 1];
    var before := AddCells(strings, init, r);
    AddCellsLength(strings, cells, r);
    AddCellsLength(strings, init, r);
    InternSpec(before.1, cells[|cells| - 1].value);
    if i < |cells| - 1 {
      AddCellsAt(strings, init, r, i);
      assert init[..i] == cells[..i] && init[i] == cells[i];
      InternSpec(AddCells(strings, cells[..i], r).1, cells[i].value);
    } else {
      assert cells[..i] == init;
      InternSpec(before.1, cells[i].value);
    }
  }

  /** The reference of a cell in a column below 26 splits into that column's single letter
      and the row's decimal digits. */
  lemma ReferenceParts(column: int, r: int)
    requires 0 <= column < 26 && r >= 1
    ensures Digits(CellReferenceOf(column, r)) == NatToDecimal(r)
    ensures NonDigits(CellReferenceOf(column, r)) == [(65 + column) as char]
  {
    var letters := ColumnLetters(column + 1);
    ColumnLettersLength(column + 1);
    DigitsAppend(letters, NatToDecimal(r));
    DigitsOfPure(letters);
    DigitsOfPure(NatToDecimal(r));
  }

  /** A shared-string cell whose index is in the table reads as the string it indexes. */
  lemma SharedValue(reference: string, strings: seq<string>, k: nat)
    requires k < |strings| <= Int32Max
    ensures CellValue(SheetCell(reference, true, NatToDecimal(k)), strings) == Some(strings[k])
  {
    ParseInt32OfIntToDecimal(k);
  }

  /** A shared-string cell's index is read as `int.Parse` reads it, white space around it
      included: an index in the table gives its string, a negative one or one past the end
      an error. */
  lemma SharedIndexRead(reference: string, strings: seq<string>, w: string, n: int, w': string)
    requires AllParseWhite(w) && AllParseWhite(w')
    requires -Int32Max - 1 <= n <= Int32Max
    ensures CellValue(SheetCell(reference, true, w + IntToDecimal(n) + w'), strings)
         == if 0 <= n < |strings| then Some(strings[n]) else None
  {
    ParseInt32IgnoresWhite(w, IntToDecimal(n), w');
    ParseInt32OfIntToDecimal(n);
  }

  /** A shared-string cell whose reference splits into a column letter and a row number,
      and whose index is in the table, converts to that row, column and string. */
  lemma SharedCellConverts(reference: string, strings: seq<string>, column: int, r: int, k: nat)
    requires 0 <= column < 26 && 1 <= r <= Int32Max && k < |strings| <= Int32Max
    requires Digits(reference) == NatToDecimal(r) && NonDigits(reference) == [(65 + column) as char]
    ensures TableCellOf(SheetCell(reference, true, NatToDecimal(k)), strings) == Some(ReadCell(r - 1, column, strings[k]))
  {
    ParseInt32OfIntToDecimal(r);
    assert ParseInt32(Digits(reference)) == Some(r);
    assert ConvertToColumnIndex(NonDigits(reference)) == Some(column);
    SharedValue(reference, strings, k);
  }

  /** A cell AddRow wrote in row `r` for a column below 26 reads back as that column, the
      0-based row and the cell's text. */
  lemma AddedCellReadsBack(strings: seq<string>, cells: seq<TableCell>, r: int, i: nat)
    requires 1 <= r <= Int32Max
    requires |AddCells(strings, cells, r).1| <= Int32Max
    requires i < |cells| && 0 <= cells[i].columnIndex < 26
    ensures i < |AddCells(strings, cells, r).0|
    ensures TableCellOf(AddCells(strings, cells, r).0[i], AddCells(strings, cells, r).1)
         == Some(ReadCell(r - 1, cells[i].columnIndex, cells[i].value))
  {
    hide *;
    AddCellsAt(strings, cells, r, i);
    var interned := Intern(AddCells(strings, cells[..i], r).1, cells[i].value);
    InternSpec(AddCells(strings, cells[..i], r).1, cells[i].value);
    var final := AddCells(strings, cells, r).1;
    var c := cells[i].columnIndex;
    var cell := AddCells(strings, cells, r).0[i];
    assert final[interned.1] == final[..|interned.0|][interned.1];
    ReferenceParts(c, r);
    SharedCellConverts(cell.reference, final, c, r, interned.1);
  }

  /** The table: the sheet's row elements, the shared-string table, and the row count. */
  class OpenXmlTable {
    var sheetRows: seq<SheetRow>
    var sharedStrings: seq<string>
    var rowsCount: int

    /** The row count is the number of row elements. */
    ghost predicate Valid()
      reads this
    {
      rowsCount == |sheetRows|
    }

    /** The table over an opened sheet and shared-string table (both empty for a new file). */
    constructor (rows: seq<SheetRow>, strings: seq<string>)
      ensures sheetRows == rows && sharedStrings == strings && Valid()
    {
      sheetRows := rows;
      sharedStrings := strings;
      rowsCount := |rows|;
    }

    /** The row at position `rowIndex`; null at or past the row count. */
    function GetRow(rowIndex: int): (row: RowRead)
      reads this
      requires Valid()
      ensures row == NoRow <==> rowIndex >= rowsCount
      ensures row == OutOfRange <==> rowIndex < 0
      ensures row.RowCells? ==> |row.cells| == |sheetRows[rowIndex].cells|
    {
      if rowIndex >= rowsCount then NoRow
      else if rowIndex < 0 then OutOfRange
      else
        var cells := sheetRows[rowIndex].cells;
        var strings := sharedStrings;
        RowCells(seq(|cells|, i requires 0 <= i < |cells| => TableCellOf(cells[i], strings)))
    }

    /** A row GetRow finds converts each of its cells. */
    lemma GetRowAt(rowIndex: int, i: nat)
      requires Valid() && 0 <= rowIndex < rowsCount && i < |sheetRows[rowIndex].cells|
      ensures GetRow(rowIndex).RowCells?
      ensures GetRow(rowIndex).cells[i] == TableCellOf(sheetRows[rowIndex].cells[i], sharedStrings)
    {
    }

    /** Splits the reference into its digits and its other characters, then reads the row,
        the column and the value. */
    method ConvertToTableCell(cell: SheetCell) returns (r: Option<ReadCell>)
      ensures r == TableCellOf(cell, sharedStrings)
    {
      hide ParseInt32, CellValue;
      var rowPart := "";
      var columnPart := "";
      var reference := cell.reference;
      for i := 0 to |reference|
        invariant rowPart == Digits(reference[..i]) && columnPart == NonDigits(reference[..i])
      {
        assert reference[..i + 1][..i] == reference[..i];
        if IsDigit(reference[i]) {
          rowPart := rowPart + [reference[i]];
        } else {
          columnPart := columnPart + [reference[i]];
        }
      }
      assert reference[..|reference|] == reference;
      DigitsSpec(reference);
      var rowIndex := ParseInt32(rowPart);
      if rowIndex == None {
        return None;
      }
      var columnIndex := ConvertToColumnIndex(columnPart);
      if columnIndex == None {
        return None;
      }
      var cellValue := CellValue(cell, sharedStrings);
      if cellValue == None {
        return None;
      }
      r := Some(ReadCell(rowIndex.value - 1, columnIndex.value, cellValue.value));
    }

    /** Appends a row numbered one past the row count, one cell element per cell, its text
        interned in the shared-string table. */
    method AddRow(cells: seq<TableCell>)
      requires Valid()
      modifies this
      ensures Valid()
      ensures rowsCount == old(rowsCount) + 1
      ensures sheetRows == old(sheetRows) + [SheetRow(rowsCount, AddCells(old(sharedStrings), cells, rowsCount).0)]
      ensures sharedStrings == AddCells(old(sharedStrings), cells, rowsCount).1
    {
      rowsCount := rowsCount + 1;
      var row: seq<SheetCell> := [];
      for i := 0 to |cells|
        invariant rowsCount == old(rowsCount) + 1 && sheetRows == old(sheetRows)
        invariant (row, sharedStrings) == AddCells(old(sharedStrings), cells[..i], rowsCount)
      {
        assert cells[..i + 1][..i] == cells[..i];
        var cell := cells[i];
        var columnName := ConvertToColumnName(cell.columnIndex);
        var cellReference := columnName + IntToDecimal(rowsCount);
        var sharedStringIndex := InsertSharedStringItem(cell.value);
        row := row + [SheetCell(cellReference, true, NatToDecimal(sharedStringIndex))];
      }
      assert cells[..|cells|] == cells;
      sheetRows := sheetRows + [SheetRow(rowsCount, row)];
    }

    /** The last row AddRow wrote reads back, through GetRow, as the cells it was given,
        for the columns below 26. */
    lemma LastRowReadsBack(strings: seq<string>, cells: seq<TableCell>, i: nat)
      requires Valid() && 1 <= rowsCount <= Int32Max && |sharedStrings| <= Int32Max
      requires sheetRows[rowsCount - 1] == SheetRow(rowsCount, AddCells(strings, cells, rowsCount).0)
      requires sharedStrings == AddCells(strings, cells, rowsCount).1
      requires i < |cells| && 0 <= cells[i].columnIndex < 26
      ensures GetRow(rowsCount - 1).RowCells? && i < |GetRow(rowsCount - 1).cells|
      ensures GetRow(rowsCount - 1).cells[i] == Some(ReadCell(rowsCount - 1, cells[i].columnIndex, cells[i].value))
    {
      AddedCellReadsBack(strings, cells, rowsCount, i);
      GetRowAt(rowsCount - 1, i);
    }

    /** Returns the index of the first shared string equal to `text`, appending `text`
        when there is none. */
    method InsertSharedStringItem(text: string) returns (itemIndex: int)
      modifies this`sharedStrings
      ensures (sharedStrings, itemIndex) == Intern(old(sharedStrings), text)
      ensures 0 <= itemIndex < |sharedStrings| && sharedStrings[itemIndex] == text
    {
      itemIndex := 0;
      while itemIndex < |sharedStrings|
        invariant 0 <= itemIndex <= |sharedStrings| && sharedStrings == old(sharedStrings)
        invariant text !in sharedStrings[..itemIndex]
      {
        if sharedStrings[itemIndex] == text {
          return;
        }
        assert sharedStrings[..itemIndex + 1] == sharedStrings[..itemIndex] + [sharedStrings[itemIndex]];
        itemIndex := itemIndex + 1;
      }
      assert sharedStrings[..itemIndex] == sharedStrings;
      sharedStrings := sharedStrings + [text];
    }

    /** The letters of column `columnIndex` (0 is "A"): bijective base 26 of columnIndex + 1,
        least significant letter first into the front of the name. */
    static method ConvertToColumnName(columnIndex: int) returns (columnName: string)
      ensures columnName == ColumnLetters(columnIndex + 1)
      ensures columnIndex >= 0 ==> columnName != [] && AllLetters(columnName)
    {
      var n := columnIndex + 1;
      columnName := "";
      while n > 0
        invariant ColumnLetters(columnIndex + 1) == ColumnLetters(n) + columnName
        decreases n
      {
        var remainder := (n - 1) % 26;
        assert (n - remainder) / 26 == (n - 1) / 26;
        columnName := [(65 + remainder) as char] + columnName;
        n := (n - remainder) / 26;
      }
    }
  }
}
