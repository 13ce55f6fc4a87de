/**
 * The older OpenXML table: its cell-reference builder, which reads its column index as
 * 1-based bijective base 26 and prints the row index as given, its GetValue, which looks the
 * reference up among the worksheet's cells in document order, and its SetValue, which does
 * nothing. The worksheet is the sequence of its cells; opening and saving the document are
 * not modelled.
 */
module Tables {
  import opened Wrappers
  import opened CellReference
  import TableClasses

  /** A cell of the worksheet: its reference ("B3") and its inner text. */
  datatype DocumentCell = DocumentCell(reference: string, innerText: string)

  /** The position of the first cell with `reference`, or |cells| when there is none. */
  function FindCell(cells: seq<DocumentCell>, reference: string): (k: nat)
    ensures k <= |cells|
    ensures forall i :: 0 <= i < k ==> cells[i].reference != reference
    ensures k < |cells| ==> cells[k].reference == reference
  {
    if cells == [] then 0
    else if cells[0].reference == reference then 0
    else 1 + FindCell(cells[1..], reference)
  }

  class OpenXmlTable {
    var cells: seq<DocumentCell>

    constructor (document: seq<DocumentCell>)
      ensures cells == document
    {
      cells := document;
    }

    /** The inner text of the first cell whose reference is that of (rowIndex, columnIndex);
        None, where the source dereferences null, when no cell has that reference. */
    function GetValue(rowIndex: int, columnIndex: int): (value: Option<string>)
      reads this
      ensures value.None? <==>
        forall i :: 0 <= i < |cells| ==> cells[i].reference != LegacyCellReference(rowIndex, columnIndex)
      ensures value.Some? ==>
        exists i :: 0 <= i < |cells| && cells[i].reference == LegacyCellReference(rowIndex, columnIndex)
          && value.value == cells[i].innerText
    {
      var k := FindCell(cells, LegacyCellReference(rowIndex, columnIndex));
      if k < |cells| then Some(cells[k].innerText) else None
    }

    /** Writes nothing: the worksheet is left as it was. */
    method SetValue(rowIndex: int, columnIndex: int, value: string)
      modifies this
      ensures cells == old(cells)
    {
    }

    /** The letters of the 1-based column `columnIndex` (none for 0 or less), then the row
        index in decimal. */
    static method ConvertToCellReference(rowIndex: int, columnIndex: int) returns (reference: string)
      ensures reference == ColumnLetters(columnIndex) + IntToDecimal(rowIndex)
    {
      var columnName := "";
      var c := columnIndex;
      while c > 0
        invariant ColumnLetters(columnIndex) == ColumnLetters(c) + columnName
        decreases c
      {
        var remainder := (c - 1) % 26;
        assert (c - remainder) / 26 == (c - 1) / 26;
        columnName := [(65 + remainder) as char] + columnName;
        c := (c - remainder) / 26;
      }
      reference := columnName + IntToDecimal(rowIndex);
    }
  }

  /** The reference ConvertToCellReference builds. */
  function LegacyCellReference(rowIndex: int, columnIndex: int): string {
    ColumnLetters(columnIndex) + IntToDecimal(rowIndex)
  }

  /** Column 0 has no letters: the reference is the row's decimal alone. */
  lemma ColumnZeroReference(rowIndex: int)
    ensures LegacyCellReference(rowIndex, 0) == IntToDecimal(rowIndex)
    ensures TableClasses.Digits(LegacyCellReference(rowIndex, 0)) == NatToDecimal(if rowIndex < 0 then -rowIndex else rowIndex)
  {
    var number := NatToDecimal(if rowIndex < 0 then -rowIndex else rowIndex);
    TableClasses.DigitsOfPure(number);
    if rowIndex < 0 {
      TableClasses.DigitsAppend("-", number);
      assert TableClasses.Digits("-") == TableClasses.Digits([]) + [];
    }
  }

  /** Reading a reference back: for a column from 1 and a row from 0, its digits are the row
      number as printed (no +1) and its other characters the column letters, whose value is
      the column: so distinct cells get distinct references. */
  lemma LegacyReferenceParses(rowIndex: int, columnIndex: int)
    requires rowIndex >= 0 && columnIndex >= 1
    ensures TableClasses.Digits(LegacyCellReference(rowIndex, columnIndex)) == NatToDecimal(rowIndex)
    ensures TableClasses.NonDigits(LegacyCellReference(rowIndex, columnIndex)) == ColumnLetters(columnIndex)
    ensures DecimalValue(NatToDecimal(rowIndex)) == rowIndex
    ensures LettersValue(ColumnLetters(columnIndex)) == columnIndex
  {
    var letters := ColumnLetters(columnIndex);
    TableClasses.DigitsAppend(letters, NatToDecimal(rowIndex));
    TableClasses.DigitsOfPure(letters);
    TableClasses.DigitsOfPure(NatToDecimal(rowIndex));
    DecimalValueOfNatToDecimal(rowIndex);
    LettersValueOfColumnLetters(columnIndex);
  }

  /** The letter part for column c + 1 is the name the newer OpenXML table gives column c,
      so its references for 1-based rows agree with this builder's. */
  lemma AgreesWithColumnName(rowIndex: int, c: int)
    requires c >= 0
    ensures LegacyCellReference(rowIndex, c + 1) == TableClasses.CellReferenceOf(c, rowIndex)
    ensures LegacyCellReference(rowIndex, c + 1)[..|ColumnLetters(c + 1)|] == ColumnLetters(c + 1)
    ensures ColumnLetters(c + 1) != [] && AllLetters(ColumnLetters(c + 1))
  {
  }

  /** Distinct cells from row 0 and column 1 on have distinct references, so GetValue of
      one never finds another's text. */
  lemma ReferencesDistinct(rowIndex: int, columnIndex: int, rowIndex': int, columnIndex': int)
    requires rowIndex >= 0 && columnIndex >= 1 && rowIndex' >= 0 && columnIndex' >= 1
    requires (rowIndex, columnIndex) != (rowIndex', columnIndex')
    ensures LegacyCellReference(rowIndex, columnIndex) != LegacyCellReference(rowIndex', columnIndex')
  {
    LegacyReferenceParses(rowIndex, columnIndex);
    LegacyReferenceParses(rowIndex', columnIndex');
  }
}
