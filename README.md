# ExcelTransformation, modelled in Dafny

ExcelTransformation turns spreadsheets into normalised tables. This model covers five
pieces of it:

- **AccountManagerNormalizer.** It reads a wide account sheet. Row 0 holds column titles. Each data
  row is one account. Four recognised manager columns ("__l9district_mgrs", "__l9region_vps",
  "__l9area_vps", "__l9division") hold `|`-separated manager names. It writes three tables:
  - the account table: the attribute columns only, re-indexed from 0;
  - the manager table: each distinct manager once, in first-seen order;
  - the relation table: one (account id, manager, level) row per manager token.

  Cells in the first nine columns, except column 1, are upper-cased and trimmed first.
- **The OpenXML table** (`TableClasses/OpenXMLTable.cs`). A worksheet is a list of rows of
  referenced cells over a shared-string table:
  - `GetRow` reads a row back as (row, column, value) cells;
  - `AddRow` appends a row, interning every value in the shared-string table;
  - column names are bijective base 26 ("A".."Z", "AA", ...).
- **The older OpenXML table** (`Tables/OpenXMLTable.cs`). It builds references from a 1-based
  column and a row and looks cells up by reference. Its `SetValue` does nothing.
- **XlsNormalizer and XlsTransformator.** These two flatten a workbook. In each data row, the
  cells from column 2 up to the first null or empty one each become one output row
  (`[id, cell]`) under an "Id" / "Manager" header; cells after that stop are not read. The
  output file name joins the '.'-separated pieces of the input name other than the last, with
  no '.' between them, and appends "-normalized.xls" or "-transformed.xls". So "a.b.xlsx"
  gives "ab-normalized.xls", and a name without '.' gives just the suffix ("-normalized.xls" or
  "-transformed.xls").

Modules, in dependency order:

- **Library modules:**
  - `Wrappers`: Option and Outcome.
  - `Strings`: the .NET string operations used, that is ToUpper, Trim, Split with
    RemoveEmptyEntries, and concatenation.
  - `Seqs`: distinctness, first-seen deduplication, first repeat.
  - `Grids`: a sheet as `map<(int, int), string>`, where an absent key is a null cell.
  - `CellReference`: bijective base-26 column letters and decimal numbers, each with its inverse.
- **One module per core file:**
  - `AccountManagerNormalization`
  - `TableClasses`
  - `Tables`
  - `XlsNormalization`
  - `XlsTransformation`

Where the source updates an object's fields, the model is a class with those fields. Its methods
are proved against specification functions, such as `TableRelations`, `AccountRows`, `Flattened`,
`Scan`, `Intern`, `AddCells` and `ColumnLetters`. The lemmas beside them state what those
functions mean.

Three behaviours of the code worth noting:

- **Column-name round trip.** `ConvertToColumnIndex` reads only the first letter
  (`TableClasses/OpenXMLTable.cs:196-201`, marked "Only for first 26 columns (A..Z)" there). So the round trip of
  writing a column name and reading it back holds exactly for columns 0..25
  (`TableClasses.ColumnIndexRoundTrip`). The full inverse of the letters is
  `CellReference.LettersValue` (`CellReference.LettersValueOfColumnLetters`).
- **Table access.** The normaliser reads and writes single cells with `GetCellValue`/`SetCellValue`,
  and the model follows that.
- **Empty header.** An empty header row is not rejected: there are then no attribute columns,
  and only the three headers are written. A repeated attribute title makes `Dictionary.Add`
  throw. The model returns this as `Fail(DuplicateColumnTitle(title))` and states the partial
  state left behind.

## Model

| member | source | states |
|---|---|---|
| AccountManagerNormalization.IsManagerTitle | ExcelTransformation/AccountManagerNormalizer.cs:72-75 | the title is one of the four hierarchy titles, the test at :72-75 and :129-132; each of them starts with "__l9" |
| AccountManagerNormalization.RelationType | ExcelTransformation/AccountManagerNormalizer.cs:172-187 | the level tag is "Undefined" exactly when the title is not one of the four manager titles |
| AccountManagerNormalization.RelationTypeSeparatesLevels | ExcelTransformation/AccountManagerNormalizer.cs:172-187 | distinct manager titles get distinct level tags |
| AccountManagerNormalization.FormatCellContent | ExcelTransformation/AccountManagerNormalizer.cs:142-149 | the formatted text is never longer than the content, and column 1 and columns from 9 on keep it unchanged |
| AccountManagerNormalization.FormatCellContentShape | ExcelTransformation/AccountManagerNormalizer.cs:142-149 | in columns below 9 other than 1 the result has no lower-case ASCII letter, no white space at either end and is no longer than the content; in any other column the content is unchanged |
| AccountManagerNormalization.FormatCellContentIdempotent | ExcelTransformation/AccountManagerNormalizer.cs:142-149 | formatting an already formatted cell changes nothing |
| AccountManagerNormalization.AccountIdsAt | ExcelTransformation/AccountManagerNormalizer.cs:104-107 | the data rows are rows 1..n, where n + 1 is the first row whose column 0 is null or empty; each account id is that row's column-0 text |
| AccountManagerNormalization.AccountColumnTitlesAreAttributes | ExcelTransformation/AccountManagerNormalizer.cs:70-80 | no manager title is among the account-table titles |
| AccountManagerNormalization.AccountColumnTitlesPrefix | ExcelTransformation/AccountManagerNormalizer.cs:70-80 | the account titles of a prefix of the header are a prefix of the account titles, so the input's left-to-right order is kept |
| AccountManagerNormalization.AccountColumnAt | ExcelTransformation/AccountManagerNormalizer.cs:69-81 | an attribute column is mapped to a valid account column holding its own title, and the next attribute column gets the next index |
| AccountManagerNormalization.RelateAt | ExcelTransformation/AccountManagerNormalizer.cs:155-163 | relation i of a manager cell pairs the row's id with token i and the column's level |
| AccountManagerNormalization.CellRelationsWellFormed | ExcelTransformation/AccountManagerNormalizer.cs:151-164 | every relation of a manager cell carries the row id, a non-empty manager name without a divider, and a defined level |
| AccountManagerNormalization.RowRelationsWellFormed | ExcelTransformation/AccountManagerNormalizer.cs:109-118 | every relation of a data row is well formed and carries that row's raw account id |
| AccountManagerNormalization.TableRelationsWellFormed | ExcelTransformation/AccountManagerNormalizer.cs:102-121 | every relation written is well formed and carries the id of one of the data rows processed; the "Undefined" level never occurs |
| AccountManagerNormalization.AccountRowCellsRange | ExcelTransformation/AccountManagerNormalizer.cs:166-170 | a row's account writes only reach account columns already mapped |
| AccountManagerNormalization.AccountRowCellsAt | ExcelTransformation/AccountManagerNormalizer.cs:112-116 | an attribute cell's write is its formatted content when the input cell is present, and there is no write when it is null |
| AccountManagerNormalization.AccountRowsAt | ExcelTransformation/AccountManagerNormalizer.cs:102-121 | cell (r, mapped column of c) of the account table is the formatted input cell (r, c) for a processed data row r whose cell is present, and otherwise keeps its earlier text |
| AccountManagerNormalization.AccountRowsOutside | ExcelTransformation/AccountManagerNormalizer.cs:102-121 | outside the processed rows and the mapped columns the account table is untouched |
| AccountManagerNormalization.ManagerRowsAt | ExcelTransformation/AccountManagerNormalizer.cs:189-193 | manager-table row i holds exactly manager i |
| AccountManagerNormalization.RelationRowsAt | ExcelTransformation/AccountManagerNormalizer.cs:195-202 | relation-table row i holds the account id, manager and level of relation i in columns 0, 1, 2 |
| AccountManagerNormalization.HeaderThenRows | ExcelTransformation/AccountManagerNormalizer.cs:84-100 | writing a header into row 0 and then rows from row 1 is writing the header followed by the rows from row 0 |
| AccountManagerNormalization.ColumnMappingExtend | ExcelTransformation/AccountManagerNormalizer.cs:77-79 | adding a new title at the next index keeps the dictionary mapping exactly the registered titles to their positions |
| AccountManagerNormalization.AccountHeaderOutcome | ExcelTransformation/AccountManagerNormalizer.cs:65-82 | the header pass succeeds exactly when the attribute titles are distinct; on success the dictionary maps each attribute title to its position and row 0 holds the titles; on failure it names the first repeated title |
| AccountManagerNormalization.AccountHeaderRepeat | ExcelTransformation/AccountManagerNormalizer.cs:77 | adding an attribute title already in the dictionary ends the header pass with that title as the error |
| AccountManagerNormalization.TrackingStep | ExcelTransformation/AccountManagerNormalizer.cs:155-162 | the set test and insert keep the manager list equal to the first-seen deduplication of all relation managers and the set equal to its elements |
| AccountManagerNormalization.AccountManagerNormalizer.constructor | ExcelTransformation/AccountManagerNormalizer.cs:21-31 | all tables are empty, the dictionary and set are empty, the counters are 0 |
| AccountManagerNormalization.AccountManagerNormalizer.Normalize | ExcelTransformation/AccountManagerNormalizer.cs:33-48 | succeeds exactly when the attribute titles are distinct; on success the account table is its header followed by each data row's formatted attribute cells, the manager table is "Manager" followed by the distinct managers in first-seen order, the relation table is "id", "Manager", "Type" followed by one row per manager token in scan order, and the counters point below them, the manager-table counter being 1 plus the size of the manager set; on failure the manager and relation tables are untouched |
| AccountManagerNormalization.AccountManagerNormalizer.FormatTablesAndProccess | ExcelTransformation/AccountManagerNormalizer.cs:44-47 | after an accepted account header, the manager and relation headers and the row scan produce the normalised tables |
| AccountManagerNormalization.AccountManagerNormalizer.GetInitialTableColumnTitles | ExcelTransformation/AccountManagerNormalizer.cs:50-63 | returns row 0's titles from column 0 up to the first null or empty cell: each is non-empty and present, and the cell after them is null or empty |
| AccountManagerNormalization.AccountManagerNormalizer.FormatAccountTable | ExcelTransformation/AccountManagerNormalizer.cs:65-82 | the header pass outcome, dictionary and account header row as stated by AccountHeaderOutcome |
| AccountManagerNormalization.AccountManagerNormalizer.FormatManagerTable | ExcelTransformation/AccountManagerNormalizer.cs:84-91 | empties the manager set, writes "Manager" at (0, 0) and sets the row counter to 1 |
| AccountManagerNormalization.AccountManagerNormalizer.FormatRelationTable | ExcelTransformation/AccountManagerNormalizer.cs:93-100 | writes "id", "Manager", "Type" in row 0 and sets the row counter to 1 |
| AccountManagerNormalization.AccountManagerNormalizer.ProccessInitialTable | ExcelTransformation/AccountManagerNormalizer.cs:102-121 | after the loop, all data rows are processed: the relations are those of every data row in order, and the manager, relation and account tables hold them |
| AccountManagerNormalization.AccountManagerNormalizer.ProccessInitialTableDataRow | ExcelTransformation/AccountManagerNormalizer.cs:107-119 | processing data row r after rows 1..r-1 leaves rows 1..r processed |
| AccountManagerNormalization.AccountManagerNormalizer.ProccessInitialTableRow | ExcelTransformation/AccountManagerNormalizer.cs:109-118 | the column loop appends the row's relations and performs its account writes, keeping the manager and relation tables in step |
| AccountManagerNormalization.AccountManagerNormalizer.ProccesInitialTableCell | ExcelTransformation/AccountManagerNormalizer.cs:123-140 | a cell under a manager title adds its relations; any other cell writes its formatted content to its mapped account column |
| AccountManagerNormalization.AccountManagerNormalizer.ProcessAsManagerCell | ExcelTransformation/AccountManagerNormalizer.cs:151-164 | appends one relation per non-empty `|`-token of the cell, in order, keeping the manager table deduplicated and its row counter at 1 plus the size of the manager set |
| AccountManagerNormalization.AccountManagerNormalizer.ProcessManagerToken | ExcelTransformation/AccountManagerNormalizer.cs:156-162 | one token: the manager is registered if new and one relation row is appended |
| AccountManagerNormalization.AccountManagerNormalizer.RegisterManager | ExcelTransformation/AccountManagerNormalizer.cs:157-161 | a manager not yet in the set is appended to the manager table; a known one changes nothing; either way the set gains it |
| AccountManagerNormalization.AccountManagerNormalizer.ProcessAsAccountCell | ExcelTransformation/AccountManagerNormalizer.cs:166-170 | writes the content at the row and the title's mapped column and nowhere else |
| AccountManagerNormalization.AccountManagerNormalizer.ManagerCount | ExcelTransformation/AccountManagerNormalizer.cs:157-161 | while the manager set and list are in step, the manager-table row counter is one more than the number of managers in the set |
| AccountManagerNormalization.AccountManagerNormalizer.InsertInRowManagerTable | ExcelTransformation/AccountManagerNormalizer.cs:189-193 | the manager goes into the next manager row and the counter advances |
| AccountManagerNormalization.AccountManagerNormalizer.InsertRowInRelationTable | ExcelTransformation/AccountManagerNormalizer.cs:195-202 | the relation goes into the next relation row and the counter advances |
| Seqs.DedupMembership | ExcelTransformation/AccountManagerNormalizer.cs:157-161 | a name is in the manager list exactly when some relation names it |
| Seqs.DedupFirstSeenOrder | ExcelTransformation/AccountManagerNormalizer.cs:157-161 | managers appear in the manager list in the order of their first occurrence |
| Seqs.DistinctCard | ExcelTransformation/AccountManagerNormalizer.cs:157-161 | a duplicate-free list has as many elements as its set |
| Seqs.FirstRepeatDistinct | ExcelTransformation/AccountManagerNormalizer.cs:77 | the titles have no repeat exactly when they are distinct |
| Strings.ToUpperAt | ExcelTransformation/AccountManagerNormalizer.cs:146 | upper-casing maps each character and leaves no lower-case letter |
| Strings.TrimSpec | ExcelTransformation/AccountManagerNormalizer.cs:146 | the trimmed text is a contiguous slice of the input with no white space at either end |
| Strings.SplitParts | ExcelTransformation/AccountManagerNormalizer.cs:153 | split with empty entries removed yields only non-empty pieces without the divider |
| Strings.ConcatSplit | ExcelTransformation/AccountManagerNormalizer.cs:153 | the pieces, concatenated, are the input with the dividers removed |
| Strings.SplitJoin | ExcelTransformation/AccountManagerNormalizer.cs:153 | splitting the join of non-empty divider-free pieces gives the pieces back |
| Strings.FileStemSpec | ExcelTransformation/XlsNormalizer.cs:58-62 | the stem (all '.'-pieces but the last, concatenated) has no '.', and is empty when the name has none |
| Strings.StemThenTail | ExcelTransformation/XlsNormalizer.cs:58-64 | the stem followed by a suffix ends with that suffix, and a name without '.' gives the suffix alone |
| Grids.RowRunSpec | ExcelTransformation/AccountManagerNormalizer.cs:54-60 | a row run is the present non-empty cells from the start column, and the cell after it is null or empty |
| Grids.ColumnRunSpec | ExcelTransformation/AccountManagerNormalizer.cs:104-107 | a column run is the present non-empty cells from the start row, and the cell below it is null or empty |
| CellReference.ColumnLetters | ExcelTransformation/TableClasses/OpenXMLTable.cs:181-194 | the column name is all capital letters, and empty exactly for a column number of 0 or less |
| CellReference.LettersValueOfColumnLetters | ExcelTransformation/TableClasses/OpenXMLTable.cs:186-191 | reading the bijective base-26 letters back gives the column number |
| CellReference.ColumnLettersOfLettersValue | ExcelTransformation/TableClasses/OpenXMLTable.cs:186-191 | every capital-letter name is the name of its own value |
| CellReference.ColumnLettersInjective | ExcelTransformation/TableClasses/OpenXMLTable.cs:186-191 | distinct columns get distinct names |
| CellReference.ColumnLettersLength | ExcelTransformation/TableClasses/OpenXMLTable.cs:186-191 | columns 1..26 are the single letters A..Z; later columns have two or more letters |
| CellReference.ColumnLettersExamples | ExcelTransformation/TableClasses/OpenXMLTable.cs:181-194 | sample names: 1 is A, 26 is Z, 27 is AA, 702 is ZZ |
| CellReference.DecimalValueOfNatToDecimal | ExcelTransformation/TableClasses/OpenXMLTable.cs:92 | parsing the printed decimal of a number gives the number back |
| CellReference.NatToDecimalOfDecimalValue | ExcelTransformation/TableClasses/OpenXMLTable.cs:71 | printing a parsed digit string without a leading zero gives the string back |
| TableClasses.DigitsSpec | ExcelTransformation/TableClasses/OpenXMLTable.cs:57-69 | the reference splits into its digits and its other characters, losing none |
| TableClasses.DigitsAppend | ExcelTransformation/TableClasses/OpenXMLTable.cs:57-69 | the split of a concatenation is the concatenation of the splits |
| TableClasses.ConvertToColumnIndex | ExcelTransformation/TableClasses/OpenXMLTable.cs:198-201 | fails exactly on an empty column part, where the source indexes past the end |
| TableClasses.ColumnIndexRoundTrip | ExcelTransformation/TableClasses/OpenXMLTable.cs:181-201 | reading the name of column i back gives i exactly when i < 26 |
| TableClasses.ParseInt32 | ExcelTransformation/TableClasses/OpenXMLTable.cs:71 | a parsed number is within the Int32 range |
| TableClasses.ParseInt32Digits | ExcelTransformation/TableClasses/OpenXMLTable.cs:71 | a digit string parses to its decimal value; the empty string and values above Int32.MaxValue fail |
| TableClasses.ParseInt32OfIntToDecimal | ExcelTransformation/TableClasses/OpenXMLTable.cs:71 | parsing the printed decimal of any Int32, negative ones included, gives it back |
| TableClasses.ParseInt32IgnoresWhite | ExcelTransformation/TableClasses/OpenXMLTable.cs:107 | white space before and after the number does not change the result |
| TableClasses.ParseInt32PaddedExamples | ExcelTransformation/TableClasses/OpenXMLTable.cs:107 | " 3" and "3 " both parse to 3 |
| TableClasses.ParseInt32Signed | ExcelTransformation/TableClasses/OpenXMLTable.cs:107 | one leading '+' or '-' before a digit string is read, '-' negating the value; a sign with no digits fails |
| TableClasses.ParseInt32SignExamples | ExcelTransformation/TableClasses/OpenXMLTable.cs:107 | "+3" is 3, "-3" is -3, "-0" is 0, and a lone sign fails |
| TableClasses.CellValue | ExcelTransformation/TableClasses/OpenXMLTable.cs:101-116 | a cell that is not a shared-string cell reads as its inner text; a shared-string cell reads as one of the table's strings, and as an error when its inner text does not parse |
| TableClasses.SharedIndexRead | ExcelTransformation/TableClasses/OpenXMLTable.cs:101-116 | a shared-string cell holding an Int32 index, with any white space around it, reads as the string at that index when it is in the table, and as an error when it is negative or past the end |
| TableClasses.InternSpec | ExcelTransformation/TableClasses/OpenXMLTable.cs:164-179 | interning returns the first index of the text, appending it only when absent; the table keeps its prefix and stays duplicate-free |
| TableClasses.InternIdempotent | ExcelTransformation/TableClasses/OpenXMLTable.cs:164-179 | interning the same text twice changes nothing the second time |
| TableClasses.AddCellsAt | ExcelTransformation/TableClasses/OpenXMLTable.cs:83-96 | cell i of an added row has reference column name + row number, is a shared-string cell, and holds the interned index of value i |
| TableClasses.AddedCellReadsBack | ExcelTransformation/TableClasses/OpenXMLTable.cs:55-116 | a cell written by AddRow in columns A..Z reads back as (row - 1, column, value) |
| TableClasses.OpenXmlTable.constructor | ExcelTransformation/TableClasses/OpenXMLTable.cs:37 | the row count is the number of rows in the sheet |
| TableClasses.OpenXmlTable.GetRow | ExcelTransformation/TableClasses/OpenXMLTable.cs:46-53 | absent exactly at or past the row count, an out-of-range error for a negative index, otherwise one read cell per cell of the row |
| TableClasses.OpenXmlTable.GetRowAt | ExcelTransformation/TableClasses/OpenXMLTable.cs:50-52 | read cell i is the conversion of the row's i-th cell |
| TableClasses.OpenXmlTable.ConvertToTableCell | ExcelTransformation/TableClasses/OpenXMLTable.cs:55-76 | the character loop and parses yield the cell's row (number - 1), column and value, or an error where the source throws |
| TableClasses.OpenXmlTable.AddRow | ExcelTransformation/TableClasses/OpenXMLTable.cs:78-99 | the count grows by one and the sheet gains one row numbered by it, holding the added cells over the updated shared strings |
| TableClasses.OpenXmlTable.LastRowReadsBack | ExcelTransformation/TableClasses/OpenXMLTable.cs:46-99 | GetRow of the row just added returns each added cell in columns A..Z as written |
| TableClasses.OpenXmlTable.InsertSharedStringItem | ExcelTransformation/TableClasses/OpenXMLTable.cs:164-179 | returns the first index holding the text, appending it when absent |
| TableClasses.OpenXmlTable.ConvertToColumnName | ExcelTransformation/TableClasses/OpenXMLTable.cs:181-194 | returns the bijective base-26 name of 0-based column c, that is the letters of c + 1, non-empty for c >= 0 |
| Tables.FindCell | ExcelTransformation/Tables/OpenXMLTable.cs:46 | the first cell with the reference, or the end when none has it |
| Tables.OpenXmlTable.constructor | ExcelTransformation/Tables/OpenXMLTable.cs:18-28 | the table holds the cells of the opened document |
| Tables.OpenXmlTable.GetValue | ExcelTransformation/Tables/OpenXMLTable.cs:41-48 | the text of a cell with the reference of (row, column); none exactly when no cell has it |
| Tables.OpenXmlTable.SetValue | ExcelTransformation/Tables/OpenXMLTable.cs:50-52 | the worksheet is unchanged |
| Tables.OpenXmlTable.ConvertToCellReference | ExcelTransformation/Tables/OpenXMLTable.cs:54-67 | the letters of the 1-based column (none for 0 or less) followed by the row in decimal |
| Tables.ColumnZeroReference | ExcelTransformation/Tables/OpenXMLTable.cs:59-66 | for column 0 the reference is the row's decimal alone |
| Tables.LegacyReferenceParses | ExcelTransformation/Tables/OpenXMLTable.cs:54-67 | the reference's digits are the row and its letters are the column, each recoverable |
| Tables.ReferencesDistinct | ExcelTransformation/Tables/OpenXMLTable.cs:46 | distinct cells from row 0 and column 1 have distinct references |
| Tables.AgreesWithColumnName | ExcelTransformation/Tables/OpenXMLTable.cs:54-67 | for column c + 1 the reference is the newer table's reference of 0-based column c |
| XlsNormalization.FlatRowsLength | ExcelTransformation/XlsNormalizer.cs:39-51 | one output row per visited cell |
| XlsNormalization.FlatRowsAt | ExcelTransformation/XlsNormalizer.cs:39-51 | output rows come in row-then-column order: cell j of data row r's run is one fixed output row holding the id and the cell |
| XlsNormalization.NormalizedRowAt | ExcelTransformation/XlsNormalizer.cs:41-47 | in the output book that row's column 0 is the input's column-0 cell and its column 1 the input cell (r, 2 + j) |
| XlsNormalization.NormalizedHeader | ExcelTransformation/XlsNormalizer.cs:29-33 | the output header is "Id", "Manager" |
| XlsNormalization.ColumnOneNotRead | ExcelTransformation/XlsNormalizer.cs:39-46 | inputs that differ only in column 1 flatten alike |
| XlsNormalization.OutputFileUrlOneDot | ExcelTransformation/XlsNormalizer.cs:54-67 | the output name has exactly one '.' |
| XlsNormalization.OutputFileUrlTail | ExcelTransformation/XlsNormalizer.cs:58-64 | the output name ends with "-normalized.xls", and a name without '.' gives just "-normalized.xls" |
| XlsNormalization.XlsNormalizer.constructor | ExcelTransformation/XlsNormalizer.cs:7-8 | both workbooks start empty, standing for the unset book fields |
| XlsNormalization.XlsNormalizer.NormalizeFile | ExcelTransformation/XlsNormalizer.cs:15-27 | the output book is the header then the flattened input rows; the returned name is the output name of the input |
| XlsNormalization.XlsNormalizer.FormatOutputBook | ExcelTransformation/XlsNormalizer.cs:29-33 | writes "Id", "Manager" into row 0 |
| XlsNormalization.XlsNormalizer.Normalize | ExcelTransformation/XlsNormalizer.cs:35-52 | the nested scans write exactly the flattened input rows from output row 1 |
| XlsNormalization.XlsNormalizer.GetOutputFileUrl | ExcelTransformation/XlsNormalizer.cs:54-67 | the concatenation loop yields the stem plus "-normalized.xls" |
| XlsTransformation.CellRunAt | ExcelTransformation/XlsTransformator.cs:26 | a row's run holds its non-empty values from position c on and ends at the row's end or an empty value |
| XlsTransformation.ScanFails | ExcelTransformation/XlsTransformator.cs:22-24 | the scan fails exactly when it reaches a row without cells before any stop |
| XlsTransformation.ScanLength | ExcelTransformation/XlsTransformator.cs:21-34 | a successful scan has one output row per value in the runs of the rows passed |
| XlsTransformation.ScanAt | ExcelTransformation/XlsTransformator.cs:21-34 | value j of a passed row q is one fixed output row holding q's id and cell 2 + j, in input order |
| XlsTransformation.HeaderCells | ExcelTransformation/XlsTransformator.cs:16-17 | the output header is "Id", "Manager" |
| XlsTransformation.OutputFileUrlOneDot | ExcelTransformation/XlsTransformator.cs:39-53 | the output name has exactly one '.' |
| XlsTransformation.OutputFileUrlTail | ExcelTransformation/XlsTransformator.cs:43-50 | the output name ends with "-transformed.xls", and a name without '.' gives just "-transformed.xls" |
| XlsTransformation.Transform | ExcelTransformation/XlsTransformator.cs:8-37 | fails exactly when the scan reaches a row without cells, naming that row; otherwise the output sheet is the header followed by the scanned rows from row 1, under the output name |
| XlsTransformation.GetOutputFileUrl | ExcelTransformation/XlsTransformator.cs:39-53 | the concatenation loop yields the stem plus "-transformed.xls" |

## Left out

- Loading, saving, opening and creating documents and workbooks are left as caller-side I/O. This covers `LoadFromFile`, `SaveToFile`, `SaveAndClose`, `OpenExistingFile`, `CreateNewFile`, the Spire `Workbook` and the legacy table's file constructor. The contents that come in are parameters, and the output file name is returned.
- `Program.cs`, `ExecutionTimer`, `SpireXlsTable` and `SpireXlsBook` are not part of this model. The Spire book and table are seen only through the grid they read and write.
- The revisions do not agree with each other. `ITable` declares `GetCellValue`/`SetCellValue` while the newer OpenXML table offers `GetRow`/`AddRow`. That table builds a three-argument `TableCell`, which `TableCell.cs` does not have. `Program.cs` calls `NormalizeFile` with other arguments. The normaliser is modelled over cell-level grid access, and the three-argument cell as `ReadCell`.
- Aliasing is not modelled: the caller could pass the same table or book twice (say, as input and output). The model treats every table as a separate value.
- Strings.ToUpper: upper-cases the ASCII letters only; .NET's culture-sensitive mapping of other letters is not modelled. Trim uses the .NET white-space characters.
- TableClasses.Digits: keeps the ASCII digits only. `char.IsDigit` also accepts other Unicode decimal digits, which `int.Parse` then rejects.
- TableClasses.ParseInt32: models `int.Parse` under the invariant culture: white space at both ends, one optional '+' or '-', ASCII digits, the Int32 range. The .NET tolerance of trailing NUL characters and culture-specific signs is not modelled.
- TableClasses.TableCellOf: assumes every worksheet cell has both its `r` (reference) and `t` (data type) attributes, which OOXML makes optional. Without `r`, `cell.CellReference.Value` throws; without `t`, the `cell.DataType == CellValues.SharedString` test goes through the SDK's enum conversion, which may throw depending on the SDK version. The model reads a cell without `t` as its inner text. Cells written by AddRow always carry both, so the round trip is unaffected.
- TableClasses.OpenXmlTable.GetRow: the source enumerates lazily, so a conversion error is raised only when the cell is enumerated. The model converts every cell up front and marks each failure in place.
- TableClasses.CellValue: the source's `cell == null` test is left out, because a cell taken from a row is never null. A shared-string cell whose index is past the table's end reads as an error: `GetElementSafe` returns null there, and the source then dereferences it. A negative index is an error too, where the list indexer throws.
- TableClasses.OpenXmlTable.AddRow: the row count is unbounded. The 32-bit wrap-around of `_rowsCount` and of the unsigned row index is not modelled. The read-back lemmas assume the count and the shared-string table stay within Int32.
- TableClasses.OpenXmlTable.ConvertToColumnName: the 32-bit `columnIndex++` wrap at Int32.MaxValue is not modelled; the column number is unbounded.
- AccountManagerNormalization.AccountManagerNormalizer.Normalize: the row counters and indices are unbounded integers, so Int32 overflow on very large sheets is not modelled.
- XlsTransformation.Transform: every output row is assumed writable. On a row without cells the source throws and nothing is saved; the model returns `RowWithoutCells` with the row index.
- AccountManagerNormalization.AccountManagerNormalizer.FormatTablesAndProccess, ProccessInitialTableDataRow, ProcessManagerToken and RegisterManager split source methods so each loop body has its own contract. They add no behaviour.
