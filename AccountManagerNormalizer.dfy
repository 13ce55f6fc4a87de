/**
 * The account/manager normalisation: one pass over a wide input table whose header names
 * attribute columns and four manager-hierarchy columns, writing an account table (the
 * attribute columns only, re-indexed), a de-duplicated manager directory and an
 * account-to-manager relation table tagged with the hierarchy level.
 */
module AccountManagerNormalization {
  import opened Wrappers
  import opened Grids
  import opened Strings
  import opened Seqs

  const DistrictTitle: string := "__l9district_mgrs"
  const RegionTitle: string := "__l9region_vps"
  const AreaTitle: string := "__l9area_vps"
  const DivisionTitle: string := "__l9division"

  const ManagerTableHeader: seq<string> := ["Manager"]
  const RelationTableHeader: seq<string> := ["id", "Manager", "Type"]

  const Divider: char := '|'

  /** The exception Dictionary.Add throws when an attribute title repeats. */
  datatype NormalizeError = DuplicateColumnTitle(title: string)

  /** One row of the relation table. */
  datatype Relation = Relation(accountId: string, manager: string, relationType: string)

  /** The four header titles of the manager-hierarchy columns, matched exactly; each
      carries the "__l9" prefix. */
  predicate IsManagerTitle(title: string): (r: bool)
    ensures r ==> |title| > 4 && title[..4] == "__l9"
  {
    title == DistrictTitle || title == RegionTitle || title == AreaTitle || title == DivisionTitle
  }

  /** The relation tag of a column: its hierarchy level, "Undefined" for any other title. */
  function RelationType(columnTitle: string): (tag: string)
    ensures tag == "Undefined" <==> !IsManagerTitle(columnTitle)
  {
    match columnTitle
    case "__l9district_mgrs" => "District"
    case "__l9region_vps" => "Region"
    case "__l9area_vps" => "Area"
    case "__l9division" => "Division"
    case _ => "Undefined"
  }

  /** The four hierarchy columns get four different tags. */
  lemma RelationTypeSeparatesLevels(a: string, b: string)
    requires IsManagerTitle(a) && IsManagerTitle(b) && a != b
    ensures RelationType(a) != RelationType(b)
  {
  }

  /** The positional formatting rule: columns 0 and 2..8 are upper-cased and trimmed,
      column 1 and columns from 9 on are left as they are. */
  function FormatCellContent(content: string, columnIndex: int): (r: string)
    ensures |r| <= |content|
    ensures !(columnIndex < 9 && columnIndex != 1) ==> r == content
  {
    if columnIndex < 9 && columnIndex != 1 then Trim(ToUpper(content)) else content
  }

  /** A formatted cell of columns 0 and 2..8 is upper case, has no white space at either
      end and is no longer than the cell; any other column keeps its text. */
  lemma FormatCellContentShape(content: string, columnIndex: int)
    ensures columnIndex < 9 && columnIndex != 1 ==>
      var r := FormatCellContent(content, columnIndex);
      IsUpperCase(r) && IsTrimmed(r) && |r| <= |content|
    ensures !(columnIndex < 9 && columnIndex != 1) ==> FormatCellContent(content, columnIndex) == content
  {
    if columnIndex < 9 && columnIndex != 1 {
      ToUpperIsUpperCase(content);
      TrimSpec(ToUpper(content));
      TrimKeepsUpperCase(ToUpper(content));
    }
  }

  /** Formatting a formatted value changes nothing. */
  lemma FormatCellContentIdempotent(content: string, columnIndex: int)
    ensures FormatCellContent(FormatCellContent(content, columnIndex), columnIndex)
         == FormatCellContent(content, columnIndex)
  {
    if columnIndex < 9 && columnIndex != 1 {
      var once := FormatCellContent(content, columnIndex);
      FormatCellContentShape(content, columnIndex);
      ToUpperFixesUpperCase(once);
      TrimFixesTrimmed(once);
    }
  }

  /** The header titles: row 0 from column 0 up to the first null or empty title. */
  function ColumnTitles(initial: Grid): seq<string> {
    RowRun(initial, 0, 0)
  }

  /** The account ids of the data rows 1, 2, ...: column 0 up to the first null or empty cell. */
  function AccountIds(initial: Grid): seq<string> {
    ColumnRun(initial, 1, 0)
  }

  /** The raw text of column 0 of row `r`. */
  function AccountId(initial: Grid, r: int): string {
    match Get(initial, r, 0)
    case Some(v) => v
    case None => ""
  }

  /** Data row `r` lies within the account ids exactly when its column-0 cell is neither
      null nor empty, and then that cell is its account id. */
  lemma AccountIdsAt(initial: Grid, r: int)
    requires 1 <= r <= |AccountIds(initial)| + 1
    ensures r <= |AccountIds(initial)| <==> !IsNullOrEmpty(Get(initial, r, 0))
    ensures r <= |AccountIds(initial)| ==> Get(initial, r, 0) == Some(AccountId(initial, r))
  {
    ColumnRunAt(initial, 1, 0, r - 1);
  }

  /** The attribute (non-manager) titles, in their left-to-right order. */
  function AccountColumnTitles(titles: seq<string>): (attributes: seq<string>)
    ensures |attributes| <= |titles|
    decreases |titles|
  {
    if titles == [] then []
    else
      var init := titles[..|titles| - 1];
      var last := titles[|titles| - 1];
      AccountColumnTitles(init) + (if IsManagerTitle(last) then [] else [last])
  }

  /** The account header holds no manager-hierarchy title. */
  lemma {:induction false} AccountColumnTitlesAreAttributes(titles: seq<string>)
    ensures forall i :: 0 <= i < |AccountColumnTitles(titles)| ==> !IsManagerTitle(AccountColumnTitles(titles)[i])
    decreases |titles|
  {
    if titles != [] {
      AccountColumnTitlesAreAttributes(titles[..|titles| - 1]);
    }
  }

  /** The account-table column of input column `c`: how many attribute columns precede it. */
  function AccountColumnIndex(titles: seq<string>, c: nat): nat
    requires c <= |titles|
  {
    |AccountColumnTitles(titles[..c])|
  }

  lemma AccountColumnTitlesStep(titles: seq<string>, c: nat)
    requires c < |titles|
    ensures AccountColumnTitles(titles[..c + 1])
         == AccountColumnTitles(titles[..c]) + (if IsManagerTitle(titles[c]) then [] else [titles[c]])
  {
    assert titles[..c + 1][..c] == titles[..c];
  }

  /** Later columns have larger account-table indices: attribute titles keep their order,
      a prefix of the header gives a prefix of the account header. */
  lemma {:induction false} AccountColumnTitlesPrefix(titles: seq<string>, a: nat, b: nat)
    requires a <= b <= |titles|
    ensures AccountColumnTitles(titles[..a]) <= AccountColumnTitles(titles[..b])
    decreases b - a
  {
    if a < b {
      AccountColumnTitlesPrefix(titles, a, b - 1);
      AccountColumnTitlesStep(titles, b - 1);
    }
  }

  /** Scanning one more header title: an attribute title is the next account-header title. */
  lemma AccountColumnTitlesNext(titles: seq<string>, i: nat, k: nat)
    requires i < |titles| && k <= |AccountColumnTitles(titles)|
    requires AccountColumnTitles(titles[..i]) == AccountColumnTitles(titles)[..k]
    ensures !IsManagerTitle(titles[i]) ==>
      && k < |AccountColumnTitles(titles)| && AccountColumnTitles(titles)[k] == titles[i]
      && AccountColumnTitles(titles[..i + 1]) == AccountColumnTitles(titles)[..k + 1]
    ensures IsManagerTitle(titles[i]) ==> AccountColumnTitles(titles[..i + 1]) == AccountColumnTitles(titles)[..k]
  {
    AccountColumnTitlesStep(titles, i);
    AccountColumnTitlesPrefix(titles, i + 1, |titles|);
    assert titles[..|titles|] == titles;
  }

  /** Every attribute column appears in the account header, at its account-table index,
      and the indices of attribute columns are 0, 1, 2, ... from left to right. */
  lemma AccountColumnAt(titles: seq<string>, c: nat)
    requires c < |titles| && !IsManagerTitle(titles[c])
    ensures AccountColumnIndex(titles, c) < |AccountColumnTitles(titles)|
    ensures AccountColumnTitles(titles)[AccountColumnIndex(titles, c)] == titles[c]
    ensures AccountColumnIndex(titles, c + 1) == AccountColumnIndex(titles, c) + 1
  {
    AccountColumnTitlesStep(titles, c);
    AccountColumnTitlesPrefix(titles, c + 1, |titles|);
    assert titles[..|titles|] == titles;
  }

  /** One relation per manager name, all for the same account and of the same type. */
  function Relate(accountId: string, managers: seq<string>, relationType: string): (rels: seq<Relation>)
    ensures |rels| == |managers|
    decreases |managers|
  {
    if managers == [] then []
    else
      Relate(accountId, managers[..|managers| - 1], relationType)
        + [Relation(accountId, managers[|managers| - 1], relationType)]
  }

  /** The i-th relation is the i-th manager name, with the account id and the type. */
  lemma {:induction false} RelateAt(accountId: string, managers: seq<string>, relationType: string, i: nat)
    requires i < |managers|
    ensures Relate(accountId, managers, relationType)[i] == Relation(accountId, managers[i], relationType)
    decreases |managers|
  {
    if i < |managers| - 1 {
      RelateAt(accountId, managers[..|managers| - 1], relationType, i);
    }
  }

  /** The relations of one manager cell: one per `|`-separated non-empty token of its
      formatted text, tagged with the column's level. */
  function CellRelations(accountId: string, columnTitle: string, content: string): seq<Relation> {
    Relate(accountId, Split(content, Divider), RelationType(columnTitle))
  }

  /** The relations input column `c` of row `r` contributes. */
  function ColumnRelations(initial: Grid, titles: seq<string>, r: int, c: nat): seq<Relation>
    requires c < |titles|
  {
    match Get(initial, r, c)
    case Some(v) =>
      if IsManagerTitle(titles[c]) then CellRelations(AccountId(initial, r), titles[c], FormatCellContent(v, c))
      else []
    case None => []
  }

  /** The relations of row `r` from its columns 0..c-1, left to right. */
  function RowRelations(initial: Grid, titles: seq<string>, r: int, c: nat): seq<Relation>
    requires c <= |titles|
  {
    if c == 0 then [] else RowRelations(initial, titles, r, c - 1) + ColumnRelations(initial, titles, r, c - 1)
  }

  /** The relations of the data rows 1..n, top to bottom. */
  function TableRelations(initial: Grid, titles: seq<string>, n: nat): seq<Relation> {
    if n == 0 then [] else TableRelations(initial, titles, n - 1) + RowRelations(initial, titles, n, |titles|)
  }

  function ManagerNames(relations: seq<Relation>): (names: seq<string>)
    ensures |names| == |relations|
    decreases |relations|
  {
    if relations == [] then []
    else ManagerNames(relations[..|relations| - 1]) + [relations[|relations| - 1].manager]
  }

  /** The manager-table rows of a manager list: one name per row. */
  function ManagerRows(managers: seq<string>): (rows: seq<seq<string>>)
    ensures |rows| == |managers|
    decreases |managers|
  {
    if managers == [] then []
    else ManagerRows(managers[..|managers| - 1]) + [[managers[|managers| - 1]]]
  }

  /** The relation-table rows of a relation list: account id, manager, type. */
  function RelationRows(relations: seq<Relation>): (rows: seq<seq<string>>)
    ensures |rows| == |relations|
    decreases |relations|
  {
    if relations == [] then []
    else
      var rel := relations[|relations| - 1];
      RelationRows(relations[..|relations| - 1]) + [[rel.accountId, rel.manager, rel.relationType]]
  }

  /** A relation names a non-empty manager token without `|` and a defined hierarchy level. */
  predicate WellFormedRelation(rel: Relation) {
    rel.manager != "" && Divider !in rel.manager && rel.relationType != "Undefined"
  }

  lemma CellRelationsWellFormed(accountId: string, columnTitle: string, content: string)
    requires IsManagerTitle(columnTitle)
    ensures forall k :: 0 <= k < |CellRelations(accountId, columnTitle, content)| ==>
      WellFormedRelation(CellRelations(accountId, columnTitle, content)[k])
      && CellRelations(accountId, columnTitle, content)[k].accountId == accountId
  {
    var tokens := Split(content, Divider);
    var rels := CellRelations(accountId, columnTitle, content);
    forall k | 0 <= k < |rels|
      ensures WellFormedRelation(rels[k]) && rels[k].accountId == accountId
    {
      RelateAt(accountId, tokens, RelationType(columnTitle), k);
      SplitParts(content, Divider);
    }
  }

  /** Every relation of row `r` is well formed and carries the row's raw account id. */
  lemma {:induction false} RowRelationsWellFormed(initial: Grid, titles: seq<string>, r: int, c: nat)
    requires c <= |titles|
    ensures forall k :: 0 <= k < |RowRelations(initial, titles, r, c)| ==>
      WellFormedRelation(RowRelations(initial, titles, r, c)[k])
      && RowRelations(initial, titles, r, c)[k].accountId == AccountId(initial, r)
    decreases c
  {
    if c > 0 {
      RowRelationsWellFormed(initial, titles, r, c - 1);
      var before := RowRelations(initial, titles, r, c - 1);
      var more := ColumnRelations(initial, titles, r, c - 1);
      if more != [] {
        CellRelationsWellFormed(AccountId(initial, r), titles[c - 1], FormatCellContent(Get(initial, r, c - 1).value, c - 1));
      }
      var rels := RowRelations(initial, titles, r, c);
      assert rels == before + more;
      forall k | 0 <= k < |rels|
        ensures WellFormedRelation(rels[k]) && rels[k].accountId == AccountId(initial, r)
      {
        if k < |before| {
          assert rels[k] == before[k];
        } else {
          assert rels[k] == more[k - |before|];
        }
      }
    }
  }

  /** Every relation of the data rows 1..n is well formed and carries the account id of
      one of those rows. */
  lemma {:induction false} TableRelationsWellFormed(initial: Grid, n: nat)
    requires n <= |AccountIds(initial)|
    ensures forall k :: 0 <= k < |TableRelations(initial, ColumnTitles(initial), n)| ==>
      WellFormedRelation(TableRelations(initial, ColumnTitles(initial), n)[k])
      && TableRelations(initial, ColumnTitles(initial), n)[k].accountId in AccountIds(initial)[..n]
    decreases n
  {
    var titles := ColumnTitles(initial);
    if n > 0 {
      var ids := AccountIds(initial);
      TableRelationsWellFormed(initial, n - 1);
      RowRelationsWellFormed(initial, titles, n, |titles|);
      ColumnRunSpec(initial, 1, 0);
      assert ids[n - 1] == AccountId(initial, n);
      var before := TableRelations(initial, titles, n - 1);
      var more := RowRelations(initial, titles, n, |titles|);
      var rels := TableRelations(initial, titles, n);
      assert rels == before + more;
      forall k | 0 <= k < |rels|
        ensures WellFormedRelation(rels[k]) && rels[k].accountId in ids[..n]
      {
        if k < |before| {
          assert rels[k] == before[k];
          assert ids[..n - 1] <= ids[..n];
        } else {
          assert rels[k] == more[k - |before|];
          assert ids[..n][n - 1] == ids[n - 1];
        }
      }
    }
  }

  /** The account-table writes of row `r` for input columns 0..c-1, left to right: the
      account-table column and the formatted text of each attribute cell that is not null. */
  function AccountRowCells(initial: Grid, titles: seq<string>, r: int, c: nat): seq<(int, string)>
    requires c <= |titles|
  {
    if c == 0 then []
    else
      var cells := AccountRowCells(initial, titles, r, c - 1);
      match Get(initial, r, c - 1)
      case Some(v) =>
        if IsManagerTitle(titles[c - 1]) then cells
        else cells + [(AccountColumnIndex(titles, c - 1), FormatCellContent(v, c - 1))]
      case None => cells
  }

  /** The account table after the data rows 1..n, over `base`. */
  function AccountRows(base: Grid, initial: Grid, titles: seq<string>, n: nat): Grid {
    if n == 0 then base
    else PutCells(AccountRows(base, initial, titles, n - 1), n, AccountRowCells(initial, titles, n, |titles|))
  }

  /** Before the first column of row `r` nothing is gathered and nothing written. */
  lemma RowStart(before: seq<Relation>, base: Grid, initial: Grid, titles: seq<string>, r: int)
    ensures before + RowRelations(initial, titles, r, 0) == before
    ensures PutCells(base, r, AccountRowCells(initial, titles, r, 0)) == base
  {
    assert before + [] == before;
  }

  /** One more input column of row `r`: its relations follow those gathered so far; a null
      cell adds nothing, a manager cell no account-table write, and an attribute cell the
      write of its formatted text to its account-table column. */
  lemma RowColumnStep(before: seq<Relation>, base: Grid, initial: Grid, titles: seq<string>, r: int, c: nat)
    requires c < |titles|
    ensures before + RowRelations(initial, titles, r, c + 1)
         == (before + RowRelations(initial, titles, r, c)) + ColumnRelations(initial, titles, r, c)
    ensures Get(initial, r, c) == None ==>
      && before + RowRelations(initial, titles, r, c + 1) == before + RowRelations(initial, titles, r, c)
      && AccountRowCells(initial, titles, r, c + 1) == AccountRowCells(initial, titles, r, c)
    ensures Get(initial, r, c) != None && IsManagerTitle(titles[c]) ==>
      AccountRowCells(initial, titles, r, c + 1) == AccountRowCells(initial, titles, r, c)
    ensures Get(initial, r, c) != None && !IsManagerTitle(titles[c]) ==>
      PutCells(base, r, AccountRowCells(initial, titles, r, c + 1))
      == PutCells(base, r, AccountRowCells(initial, titles, r, c))
           [(r, AccountColumnIndex(titles, c)) := FormatCellContent(Get(initial, r, c).value, c)]
  {
    var row := RowRelations(initial, titles, r, c);
    var col := ColumnRelations(initial, titles, r, c);
    assert before + (row + col) == (before + row) + col;
    if Get(initial, r, c) == None {
      assert row + col == row;
    } else if !IsManagerTitle(titles[c]) {
      PutCellsSnoc(base, r, AccountRowCells(initial, titles, r, c),
                   AccountColumnIndex(titles, c), FormatCellContent(Get(initial, r, c).value, c));
    }
  }

  /** Input columns 0..c-1 write only account-table columns 0..AccountColumnIndex(c)-1. */
  lemma {:induction false} AccountRowCellsRange(initial: Grid, titles: seq<string>, r: int, c: nat, j: int)
    requires c <= |titles|
    requires j < 0 || j >= AccountColumnIndex(titles, c)
    ensures Lookup(AccountRowCells(initial, titles, r, c), j) == None
    decreases c
  {
    if c > 0 {
      AccountColumnTitlesStep(titles, c - 1);
      AccountRowCellsRange(initial, titles, r, c - 1, j);
    }
  }

  /** Row `r` gets, in the column of each attribute column among the first `c`, the
      formatted input cell, and nothing where the input cell is null. */
  lemma {:induction false} AccountRowCellsAt(initial: Grid, titles: seq<string>, r: int, c: nat, c': nat)
    requires c' < c <= |titles| && !IsManagerTitle(titles[c'])
    ensures Lookup(AccountRowCells(initial, titles, r, c), AccountColumnIndex(titles, c'))
         == if Get(initial, r, c').Some? then Some(FormatCellContent(Get(initial, r, c').value, c')) else None
    decreases c
  {
    var prev := AccountRowCells(initial, titles, r, c - 1);
    var j := AccountColumnIndex(titles, c');
    if c' == c - 1 {
      AccountRowCellsRange(initial, titles, r, c - 1, j);
    } else {
      AccountRowCellsAt(initial, titles, r, c - 1, c');
      AccountColumnTitlesStep(titles, c');
      AccountColumnTitlesPrefix(titles, c' + 1, c - 1);
      assert j < AccountColumnIndex(titles, c - 1);
    }
  }

  /** The final account table cell by cell: in rows 1..n the column of each attribute column
      holds the formatted input cell, or its old text where the input cell is null. */
  lemma {:induction false} AccountRowsAt(base: Grid, initial: Grid, titles: seq<string>, n: nat, r: int, c: nat)
    requires c < |titles| && !IsManagerTitle(titles[c])
    ensures Get(AccountRows(base, initial, titles, n), r, AccountColumnIndex(titles, c))
         == if 1 <= r <= n && Get(initial, r, c).Some? then Some(FormatCellContent(Get(initial, r, c).value, c))
            else Get(base, r, AccountColumnIndex(titles, c))
    decreases n
  {
    if n > 0 {
      var prev := AccountRows(base, initial, titles, n - 1);
      var cells := AccountRowCells(initial, titles, n, |titles|);
      var j := AccountColumnIndex(titles, c);
      AccountRowsAt(base, initial, titles, n - 1, r, c);
      PutCellsGet(prev, n, cells, r, j);
      if r == n {
        AccountRowCellsAt(initial, titles, n, |titles|, c);
      }
    }
  }

  /** Outside rows 1..n and outside the account columns the account table keeps its old text. */
  lemma {:induction false} AccountRowsOutside(base: Grid, initial: Grid, titles: seq<string>, n: nat, r: int, j: int)
    requires !(1 <= r <= n) || !(0 <= j < |AccountColumnTitles(titles)|)
    ensures Get(AccountRows(base, initial, titles, n), r, j) == Get(base, r, j)
    decreases n
  {
    if n > 0 {
      AccountRowsOutside(base, initial, titles, n - 1, r, j);
      assert titles[..|titles|] == titles;
      if r == n {
        AccountRowCellsRange(initial, titles, n, |titles|, j);
      }
      PutCellsGet(AccountRows(base, initial, titles, n - 1), n, AccountRowCells(initial, titles, n, |titles|), r, j);
    }
  }

  /** Data row k + 1 adds its relations after those of rows 1..k and its account-table
      writes over the table rows 1..k left. */
  lemma TableRowStep(base: Grid, initial: Grid, titles: seq<string>, k: nat)
    ensures TableRelations(initial, titles, k + 1)
         == TableRelations(initial, titles, k) + RowRelations(initial, titles, k + 1, |titles|)
    ensures AccountRows(base, initial, titles, k + 1)
         == PutCells(AccountRows(base, initial, titles, k), k + 1, AccountRowCells(initial, titles, k + 1, |titles|))
  {
  }

  /** The i-th manager name is the manager of the i-th relation. */
  lemma {:induction false} ManagerNamesAt(relations: seq<Relation>, i: nat)
    requires i < |relations|
    ensures ManagerNames(relations)[i] == relations[i].manager
    decreases |relations|
  {
    if i < |relations| - 1 {
      ManagerNamesAt(relations[..|relations| - 1], i);
    }
  }

  /** Row i of the manager rows holds the i-th name alone. */
  lemma {:induction false} ManagerRowsAt(managers: seq<string>, i: nat)
    requires i < |managers|
    ensures ManagerRows(managers)[i] == [managers[i]]
    decreases |managers|
  {
    if i < |managers| - 1 {
      ManagerRowsAt(managers[..|managers| - 1], i);
    }
  }

  /** Row i of the relation rows holds the account id, the manager and the type of the
      i-th relation. */
  lemma {:induction false} RelationRowsAt(relations: seq<Relation>, i: nat)
    requires i < |relations|
    ensures RelationRows(relations)[i] == [relations[i].accountId, relations[i].manager, relations[i].relationType]
    decreases |relations|
  {
    if i < |relations| - 1 {
      RelationRowsAt(relations[..|relations| - 1], i);
    }
  }

  lemma ManagerRowsAppend(managers: seq<string>, m: string)
    ensures ManagerRows(managers + [m]) == ManagerRows(managers) + [[m]]
  {
    assert (managers + [m])[..|managers|] == managers;
  }

  lemma RelationRowsAppend(relations: seq<Relation>, rel: Relation)
    ensures RelationRows(relations + [rel]) == RelationRows(relations) + [[rel.accountId, rel.manager, rel.relationType]]
  {
    assert (relations + [rel])[..|relations|] == relations;
  }

  lemma WriteRowsStep(g: Grid, r: int, rows: seq<seq<string>>, row: seq<string>)
    ensures WriteRows(g, r, rows + [row]) == WriteRow(WriteRows(g, r, rows), r + |rows|, 0, row)
  {
    assert (rows + [row])[..|rows|] == rows;
  }

  /** A header written into row 0 and then rows written from row 1 is all of them written
      from row 0. */
  lemma HeaderThenRows(g: Grid, header: seq<string>, rows: seq<seq<string>>)
    ensures WriteRows(WriteRow(g, 0, 0, header), 1, rows) == WriteRows(g, 0, [header] + rows)
  {
    WriteRowsAppend(g, 0, [header], rows);
    WriteRowsStep(g, 0, [], header);
    assert [] + [header] == [header];
  }

  /** `columns` maps the titles of `names`, and nothing else, to their positions. */
  predicate ColumnMapping(columns: map<string, int>, names: seq<string>) {
    && (forall t :: t in columns ==> 0 <= columns[t] < |names| && names[columns[t]] == t)
    && (forall j :: 0 <= j < |names| ==> names[j] in columns && columns[names[j]] == j)
  }

  /** Mapping a new title to the next position keeps the mapping. */
  lemma ColumnMappingExtend(columns: map<string, int>, names: seq<string>, t: string)
    requires ColumnMapping(columns, names) && t !in columns
    ensures ColumnMapping(columns[t := |names|], names + [t])
  {
    var names' := names + [t];
    forall j | 0 <= j < |names'|
      ensures names'[j] in columns[t := |names|] && columns[t := |names|][names'[j]] == j
    {
      if j < |names| {
        assert names'[j] == names[j] && names[j] in columns && names[j] != t;
      }
    }
    var columns' := columns[t := |names|];
    forall u | u in columns'
      ensures 0 <= columns'[u] < |names'| && names'[columns'[u]] == u
    {
      if u != t {
        assert names'[columns[u]] == names[columns[u]];
      }
    }
  }

  /** The state of the account header after scanning the first `i` header titles: the
      attribute titles among them, `registered`, are distinct, written into row 0 of `table`
      over `base`, and mapped to their columns. */
  ghost predicate AccountHeaderScanned(titles: seq<string>, i: nat, registered: seq<string>,
                                       table: Grid, base: Grid, columns: map<string, int>)
  {
    && i <= |titles|
    && AccountColumnTitles(titles[..i]) == registered
    && Distinct(registered)
    && table == WriteRow(base, 0, 0, registered)
    && ColumnMapping(columns, registered)
  }

  /** A header scan step on a manager title registers nothing. */
  lemma AccountHeaderSkip(titles: seq<string>, i: nat, registered: seq<string>,
                          table: Grid, base: Grid, columns: map<string, int>)
    requires i < |titles| && AccountHeaderScanned(titles, i, registered, table, base, columns)
    requires IsManagerTitle(titles[i])
    ensures AccountHeaderScanned(titles, i + 1, registered, table, base, columns)
  {
    AccountColumnTitlesStep(titles, i);
  }

  /** On an attribute title the scanned attribute titles are a prefix of the account header
      and the title is the next one of it. */
  lemma AccountHeaderNext(titles: seq<string>, i: nat, registered: seq<string>)
    requires i < |titles| && AccountColumnTitles(titles[..i]) == registered
    requires !IsManagerTitle(titles[i])
    ensures var attributes := AccountColumnTitles(titles);
      && |registered| < |attributes| && attributes[|registered|] == titles[i]
      && attributes[..|registered|] == registered && attributes[..|registered| + 1] == registered + [titles[i]]
  {
    var attributes := AccountColumnTitles(titles);
    AccountColumnTitlesStep(titles, i);
    AccountColumnTitlesPrefix(titles, i + 1, |titles|);
    assert titles[..|titles|] == titles;
    assert attributes[..|registered| + 1] == registered + [titles[i]];
  }

  /** The account header as the header scan leaves it: the attribute titles up to the
      first repeated one are written into row 0 over `base` and mapped to their columns,
      and the outcome names the repeated title, or is Pass when there is none. */
  ghost predicate AccountHeaderFormatted(titles: seq<string>, table: Grid, base: Grid,
                                         columns: map<string, int>, outcome: Outcome<NormalizeError>)
  {
    var attributes := AccountColumnTitles(titles);
    var k := FirstRepeat(attributes);
    && outcome == (if k == |attributes| then Pass else Fail(DuplicateColumnTitle(attributes[k])))
    && table == WriteRow(base, 0, 0, attributes[..k])
    && ColumnMapping(columns, attributes[..k])
  }

  /** The scan passes exactly when the attribute titles are distinct, and then it has
      written and mapped all of them. */
  lemma AccountHeaderOutcome(titles: seq<string>, table: Grid, base: Grid,
                             columns: map<string, int>, outcome: Outcome<NormalizeError>)
    requires AccountHeaderFormatted(titles, table, base, columns, outcome)
    ensures outcome == Pass <==> Distinct(AccountColumnTitles(titles))
    ensures outcome == Pass ==>
      table == WriteRow(base, 0, 0, AccountColumnTitles(titles)) && ColumnMapping(columns, AccountColumnTitles(titles))
  {
    var attributes := AccountColumnTitles(titles);
    FirstRepeatDistinct(attributes);
    assert attributes[..|attributes|] == attributes;
  }

  /** An attribute title already mapped is the first repeated title of the account header:
      the scan stops there with that title. */
  lemma AccountHeaderRepeat(titles: seq<string>, i: nat, registered: seq<string>,
                            table: Grid, base: Grid, columns: map<string, int>)
    requires i < |titles| && AccountHeaderScanned(titles, i, registered, table, base, columns)
    requires !IsManagerTitle(titles[i]) && titles[i] in columns
    ensures AccountHeaderFormatted(titles, table, base, columns, Fail(DuplicateColumnTitle(titles[i])))
  {
    AccountHeaderNext(titles, i, registered);
    FirstRepeatAt(AccountColumnTitles(titles), |registered|);
  }

  /** A new attribute title is registered at the next account-table column. */
  lemma AccountHeaderRegister(titles: seq<string>, i: nat, registered: seq<string>,
                              table: Grid, base: Grid, columns: map<string, int>)
    requires i < |titles| && AccountHeaderScanned(titles, i, registered, table, base, columns)
    requires !IsManagerTitle(titles[i]) && titles[i] !in columns
    ensures AccountHeaderScanned(titles, i + 1, registered + [titles[i]], table[(0, |registered|) := titles[i]],
                                 base, columns[titles[i] := |registered|])
  {
    var attributes := AccountColumnTitles(titles);
    AccountHeaderNext(titles, i, registered);
    AccountColumnTitlesStep(titles, i);
    DistinctExtend(attributes, |registered|);
    WriteRowSnoc(base, 0, 0, registered, titles[i]);
    ColumnMappingExtend(columns, registered, titles[i]);
  }

  /** A completed scan registered the whole account header, and its titles are distinct. */
  lemma AccountHeaderDone(titles: seq<string>, registered: seq<string>, table: Grid, base: Grid, columns: map<string, int>)
    requires AccountHeaderScanned(titles, |titles|, registered, table, base, columns)
    ensures AccountHeaderFormatted(titles, table, base, columns, Pass)
  {
    assert titles[..|titles|] == titles;
    FirstRepeatDistinct(registered);
    assert registered[..|registered|] == registered;
  }

  /** A relation with a manager name already listed leaves the manager list as it is; one
      with a new name appends it. */
  lemma ManagerNamesStep(relations: seq<Relation>, rel: Relation)
    ensures Dedup(ManagerNames(relations + [rel]))
         == if rel.manager in Dedup(ManagerNames(relations)) then Dedup(ManagerNames(relations))
            else Dedup(ManagerNames(relations)) + [rel.manager]
  {
    assert (relations + [rel])[..|relations|] == relations;
    DedupAppend(ManagerNames(relations), rel.manager);
    DedupMembership(ManagerNames(relations), rel.manager);
  }

  /** One more relation keeps the manager list the first-seen list of the relations'
      managers, and the seen set its elements. */
  lemma TrackingStep(managers: seq<string>, relations: seq<Relation>, seen: set<string>, rel: Relation)
    requires managers == Dedup(ManagerNames(relations)) && seen == Elements(managers)
    ensures var managers' := if rel.manager in seen then managers else managers + [rel.manager];
      && managers' == Dedup(ManagerNames(relations + [rel]))
      && seen + {rel.manager} == Elements(managers')
  {
    ManagerNamesStep(relations, rel);
    ElementsMembership(managers, rel.manager);
    ElementsAppend(managers, rel.manager);
  }

  /** The header of `initial` has been read and classified: `amount` is its width and
      `columns` maps its attribute titles, which are distinct, to their account-table columns. */
  ghost predicate HeaderClassified(initial: Grid, columns: map<string, int>, amount: int) {
    var titles := ColumnTitles(initial);
    var attributes := AccountColumnTitles(titles);
    && amount == |titles|
    && Distinct(attributes)
    && ColumnMapping(columns, attributes)
  }

  class AccountManagerNormalizer {
    var initialTable: Grid
    var accountTable: Grid
    var managerTable: Grid
    var relationTable: Grid

    /** Attribute title to account-table column. */
    var accountTableColumnTitles: map<string, int>
    /** The manager names already written to the manager table. */
    var managerSet: set<string>

    var initialTableColumnAmount: int
    var managerTableRowIndex: int
    var relationTableRowIndex: int

    /** The names written to the manager table and the relations written to the relation
        table since their headers, in order, and the two tables as their headers left them. */
    ghost var managers: seq<string>
    ghost var relations: seq<Relation>
    ghost var managerBase: Grid
    ghost var relationBase: Grid

    constructor ()
      ensures initialTable == accountTable == managerTable == relationTable == map[]
      ensures accountTableColumnTitles == map[] && managerSet == {}
      ensures initialTableColumnAmount == managerTableRowIndex == relationTableRowIndex == 0
    {
      initialTable, accountTable, managerTable, relationTable := map[], map[], map[], map[];
      accountTableColumnTitles, managerSet := map[], {};
      initialTableColumnAmount, managerTableRowIndex, relationTableRowIndex := 0, 0, 0;
      managers, relations, managerBase, relationBase := [], [], map[], map[];
    }

    /** The header has been read and classified: the scanned width and the attribute
        column mapping are fixed. */
    ghost predicate Classified()
      reads this`initialTable, this`accountTableColumnTitles, this`initialTableColumnAmount
    {
      HeaderClassified(initialTable, accountTableColumnTitles, initialTableColumnAmount)
    }

    /** The manager set holds exactly the names of the manager list, which lists each
        manager name of the relations once, in first-seen order. */
    ghost predicate Tracking()
      reads this`managers, this`relations, this`managerSet
    {
      && managers == Dedup(ManagerNames(relations))
      && managerSet == Elements(managers)
    }

    /** The manager table holds the header and then the manager list, one per row, and the
        row counter points just below it. */
    ghost predicate ManagerTableWritten()
      reads this`managerTable, this`managerTableRowIndex, this`managers, this`managerBase
    {
      && managerTableRowIndex == 1 + |managers|
      && managerTable == WriteRows(managerBase, 1, ManagerRows(managers))
    }

    /** The relation table holds the header and then the relations, one per row, and the
        row counter points just below them. */
    ghost predicate RelationTableWritten()
      reads this`relationTable, this`relationTableRowIndex, this`relations, this`relationBase
    {
      && relationTableRowIndex == 1 + |relations|
      && relationTable == WriteRows(relationBase, 1, RelationRows(relations))
    }

    /** The data rows 1..k have been processed: their relations are recorded in order,
        the manager and relation tables hold them, and the account table holds their
        attribute cells over `base`. */
    ghost predicate RowsProcessed(k: nat, base: Grid)
      reads this
    {
      && Tracking() && ManagerTableWritten() && RelationTableWritten()
      && relations == TableRelations(initialTable, ColumnTitles(initialTable), k)
      && accountTable == AccountRows(base, initialTable, ColumnTitles(initialTable), k)
    }

    /** A classified header's width is the number of its titles. */
    lemma ClassifiedWidth()
      requires Classified()
      ensures initialTableColumnAmount == |ColumnTitles(initialTable)|
    {
    }

    /** Before the first data row, with no relation recorded, no data row has been processed. */
    lemma NoRowsProcessed()
      requires Tracking() && ManagerTableWritten() && RelationTableWritten() && relations == []
      ensures RowsProcessed(0, accountTable)
    {
    }

    /** All data rows processed over the account header, below the manager and relation
        headers, are the normalised tables. */
    lemma RowsNormalized(account: Grid, manager: Grid, relation: Grid)
      requires RowsProcessed(|AccountIds(initialTable)|,
                             WriteRow(account, 0, 0, AccountColumnTitles(ColumnTitles(initialTable))))
      requires managerBase == WriteRow(manager, 0, 0, ManagerTableHeader)
      requires relationBase == WriteRow(relation, 0, 0, RelationTableHeader)
      ensures NormalizedTables(account, manager, relation)
    {
      HeaderThenRows(manager, ManagerTableHeader, ManagerRows(managers));
      HeaderThenRows(relation, RelationTableHeader, RelationRows(relations));
      ManagerCount();
    }

    /** The manager-table counter is one past the header plus the number of managers in
        the set, whenever the set and the table are in step. */
    lemma ManagerCount()
      requires Tracking() && ManagerTableWritten()
      ensures managerTableRowIndex == 1 + |managerSet|
    {
      DistinctCard(managers);
    }

    /** The same count once rows 1..k are processed. */
    lemma RowsCounted(k: nat, base: Grid)
      requires RowsProcessed(k, base)
      ensures managerTableRowIndex == 1 + |managerSet|
    {
      ManagerCount();
    }

    /** With no relation recorded and no manager written, the tracking holds. */
    lemma NothingTracked()
      requires relations == [] && managers == [] && managerSet == {}
      ensures Tracking()
    {
    }

    /** A header with a repeated attribute title: the outcome names the first repeated
        title, the account header holds the attribute titles before it, and the manager
        and relation tables are untouched. */
    ghost predicate RejectedHeader(account: Grid, manager: Grid, relation: Grid, outcome: Outcome<NormalizeError>)
      reads this
    {
      && outcome != Pass
      && AccountHeaderFormatted(ColumnTitles(initialTable), accountTable, account, accountTableColumnTitles, outcome)
      && managerTable == manager && relationTable == relation
    }

    /** The three output tables of a normalised input: the account header and the data
        rows' attribute cells, the manager header and the distinct manager names in
        first-seen order, the relation header and one row per manager token. */
    ghost predicate NormalizedTables(account: Grid, manager: Grid, relation: Grid)
      reads this
    {
      var titles := ColumnTitles(initialTable);
      var n := |AccountIds(initialTable)|;
      var rels := TableRelations(initialTable, titles, n);
      var names := Dedup(ManagerNames(rels));
      && accountTable == AccountRows(WriteRow(account, 0, 0, AccountColumnTitles(titles)), initialTable, titles, n)
      && managerTable == WriteRows(manager, 0, [ManagerTableHeader] + ManagerRows(names))
      && relationTable == WriteRows(relation, 0, [RelationTableHeader] + RelationRows(rels))
      && managerSet == Elements(names)
      && managerTableRowIndex == 1 + |names|
      && managerTableRowIndex == 1 + |managerSet|
      && relationTableRowIndex == 1 + |rels|
    }

    /** Normalises `initial` into the account, manager and relation tables. */
    method Normalize(initial: Grid, account: Grid, manager: Grid, relation: Grid)
      returns (outcome: Outcome<NormalizeError>)
      modifies this
      ensures initialTable == initial
      ensures outcome == Pass <==> Distinct(AccountColumnTitles(ColumnTitles(initial)))
      ensures outcome != Pass ==> RejectedHeader(account, manager, relation, outcome)
      ensures outcome == Pass ==> NormalizedTables(account, manager, relation)
    {
      initialTable := initial;
      accountTable := account;
      managerTable := manager;
      relationTable := relation;

      var initialTableColumnTitles := GetInitialTableColumnTitles();
      initialTableColumnAmount := |initialTableColumnTitles|;

      outcome := FormatAccountTable(initialTableColumnTitles);
      AccountHeaderOutcome(initialTableColumnTitles, accountTable, account, accountTableColumnTitles, outcome);
      if outcome != Pass {
        return;
      }
      assert Classified();
      FormatTablesAndProccess(account, manager, relation);
    }

    /** The rest of Normalize once the account header is accepted: the manager and
        relation headers, then the data rows. */
    method FormatTablesAndProccess(account: Grid, manager: Grid, relation: Grid)
      requires Classified()
      requires accountTable == WriteRow(account, 0, 0, AccountColumnTitles(ColumnTitles(initialTable)))
      requires managerTable == manager && relationTable == relation
      modifies this`accountTable, this`managerTable, this`relationTable, this`managerSet, this`managerTableRowIndex,
               this`relationTableRowIndex, this`managers, this`relations, this`managerBase, this`relationBase
      ensures NormalizedTables(account, manager, relation)
    {
      hide *;
      FormatManagerTable();
      FormatRelationTable();
      NothingTracked();
      ProccessInitialTable();
      RowsNormalized(account, manager, relation);
    }

    /** Reads the header titles of row 0 from column 0 up to the first null or empty one. */
    method GetInitialTableColumnTitles() returns (columnTitles: seq<string>)
      ensures forall i :: 0 <= i < |columnTitles| ==>
        Get(initialTable, 0, i) == Some(columnTitles[i]) && columnTitles[i] != ""
      ensures IsNullOrEmpty(Get(initialTable, 0, |columnTitles|))
      ensures columnTitles == ColumnTitles(initialTable)
    {
      columnTitles := [];
      var columnIndex := 0;
      var columnTitle := Get(initialTable, 0, columnIndex);
      while !IsNullOrEmpty(columnTitle)
        invariant columnIndex == |columnTitles|
        invariant columnTitle == Get(initialTable, 0, columnIndex)
        invariant ColumnTitles(initialTable) == columnTitles + RowRun(initialTable, 0, columnIndex)
        decreases |RowRun(initialTable, 0, columnIndex)|
      {
        RowRunStep(initialTable, 0, columnIndex);
        columnTitles := columnTitles + [columnTitle.value];
        columnIndex := columnIndex + 1;
        columnTitle := Get(initialTable, 0, columnIndex);
      }
      assert RowRun(initialTable, 0, columnIndex) == [];
      assert columnTitles == ColumnTitles(initialTable);
      RowRunSpec(initialTable, 0, 0);
    }

    /** Maps each attribute title to the next account-table column and writes it into the
        account header; stops with the Dictionary.Add exception at a repeated attribute title. */
    method FormatAccountTable(initialTableColumnTitles: seq<string>) returns (outcome: Outcome<NormalizeError>)
      modifies this`accountTableColumnTitles, this`accountTable
      ensures AccountHeaderFormatted(initialTableColumnTitles, accountTable, old(accountTable),
                                     accountTableColumnTitles, outcome)
    {
      var titles := initialTableColumnTitles;
      ghost var registered: seq<string> := [];
      accountTableColumnTitles := map[];
      var columnIndex := 0;
      assert titles[..0] == [];
      for i := 0 to |titles|
        invariant columnIndex == |registered|
        invariant AccountHeaderScanned(titles, i, registered, accountTable, old(accountTable), accountTableColumnTitles)
      {
        var columnTitle := titles[i];
        if IsManagerTitle(columnTitle) {
          AccountHeaderSkip(titles, i, registered, accountTable, old(accountTable), accountTableColumnTitles);
        } else {
          if columnTitle in accountTableColumnTitles {
            AccountHeaderRepeat(titles, i, registered, accountTable, old(accountTable), accountTableColumnTitles);
            return Fail(DuplicateColumnTitle(columnTitle));
          }
          AccountHeaderRegister(titles, i, registered, accountTable, old(accountTable), accountTableColumnTitles);
          accountTableColumnTitles := accountTableColumnTitles[columnTitle := columnIndex];
          accountTable := accountTable[(0, columnIndex) := columnTitle];
          columnIndex := columnIndex + 1;
          registered := registered + [columnTitle];
        }
      }
      AccountHeaderDone(titles, registered, accountTable, old(accountTable), accountTableColumnTitles);
      outcome := Pass;
    }

    method FormatManagerTable()
      modifies this`managerSet, this`managerTable, this`managerTableRowIndex, this`managers, this`managerBase
      ensures managerSet == {} && managers == []
      ensures managerTable == WriteRow(old(managerTable), 0, 0, ManagerTableHeader)
      ensures managerTableRowIndex == 1
      ensures managerBase == managerTable
      ensures ManagerTableWritten()
    {
      managerSet := {};
      managerTable := managerTable[(0, 0) := "Manager"];
      managerTableRowIndex := 1;
      managers := [];
      managerBase := managerTable;
      WriteRowSnoc(old(managerTable), 0, 0, [], "Manager");
      assert [] + ["Manager"] == ManagerTableHeader;
    }

    method FormatRelationTable()
      modifies this`relationTable, this`relationTableRowIndex, this`relations, this`relationBase
      ensures relations == []
      ensures relationTable == WriteRow(old(relationTable), 0, 0, RelationTableHeader)
      ensures relationTableRowIndex == 1
      ensures relationBase == relationTable
      ensures RelationTableWritten()
    {
      relationTable := relationTable[(0, 0) := "id"];
      relationTable := relationTable[(0, 1) := "Manager"];
      relationTable := relationTable[(0, 2) := "Type"];
      relationTableRowIndex := 1;
      relations := [];
      relationBase := relationTable;
      WriteRowSnoc(old(relationTable), 0, 0, [], "id");
      WriteRowSnoc(old(relationTable), 0, 0, ["id"], "Manager");
      WriteRowSnoc(old(relationTable), 0, 0, ["id", "Manager"], "Type");
      assert [] + ["id"] == ["id"] && ["id"] + ["Manager"] == ["id", "Manager"];
      assert ["id", "Manager"] + ["Type"] == RelationTableHeader;
    }

    /** Scans the data rows from row 1 up to the first row whose column 0 is null or empty,
        and in each the header's columns, handing every cell that is not null on. */
    method ProccessInitialTable()
      requires Classified() && Tracking() && ManagerTableWritten() && RelationTableWritten()
      requires relations == []
      modifies this`accountTable, this`managerTable, this`relationTable, this`managerSet,
               this`managerTableRowIndex, this`relationTableRowIndex, this`managers, this`relations
      ensures RowsProcessed(|AccountIds(initialTable)|, old(accountTable))
      ensures managerTableRowIndex == 1 + |managerSet|
    {
      hide *;
      NoRowsProcessed();
      RowsCounted(0, accountTable);
      ghost var n := |AccountIds(initialTable)|;
      ghost var base := accountTable;
      var rowIndex := 1;
      var accountId := Get(initialTable, rowIndex, 0);
      while !IsNullOrEmpty(accountId)
        invariant 1 <= rowIndex <= n + 1
        invariant accountId == Get(initialTable, rowIndex, 0)
        invariant RowsProcessed(rowIndex - 1, base)
        invariant managerTableRowIndex == 1 + |managerSet|
        decreases n + 1 - rowIndex
      {
        AccountIdsAt(initialTable, rowIndex);
        ProccessInitialTableDataRow(rowIndex, accountId.value, base);
        RowsCounted(rowIndex, base);
        rowIndex := rowIndex + 1;
        accountId := Get(initialTable, rowIndex, 0);
      }
      AccountIdsAt(initialTable, rowIndex);
    }

    /** One turn of ProccessInitialTable's outer loop: data row `rowIndex` processed after
        the rows above it. */
    method ProccessInitialTableDataRow(rowIndex: int, accountId: string, ghost base: Grid)
      requires Classified()
      requires 1 <= rowIndex && accountId == AccountId(initialTable, rowIndex)
      requires RowsProcessed(rowIndex - 1, base)
      modifies this`accountTable, this`managerTable, this`relationTable, this`managerSet,
               this`managerTableRowIndex, this`relationTableRowIndex, this`managers, this`relations
      ensures RowsProcessed(rowIndex, base)
    {
      TableRowStep(base, initialTable, ColumnTitles(initialTable), rowIndex - 1);
      ProccessInitialTableRow(rowIndex, accountId);
    }

    /** The inner loop of ProccessInitialTable: the header's columns of data row `rowIndex`,
        left to right, each cell that is not null handed on. */
    method ProccessInitialTableRow(rowIndex: int, accountId: string)
      requires Classified() && Tracking() && ManagerTableWritten() && RelationTableWritten()
      requires accountId == AccountId(initialTable, rowIndex)
      modifies this`accountTable, this`managerTable, this`relationTable, this`managerSet,
               this`managerTableRowIndex, this`relationTableRowIndex, this`managers, this`relations
      ensures Tracking() && ManagerTableWritten() && RelationTableWritten()
      ensures var titles := ColumnTitles(initialTable);
        && relations == old(relations) + RowRelations(initialTable, titles, rowIndex, |titles|)
        && accountTable == PutCells(old(accountTable), rowIndex, AccountRowCells(initialTable, titles, rowIndex, |titles|))
    {
      hide *;
      ghost var titles := ColumnTitles(initialTable);
      ClassifiedWidth();
      RowStart(old(relations), old(accountTable), initialTable, titles, rowIndex);
      var columnIndex := 0;
      while columnIndex < initialTableColumnAmount
        invariant 0 <= columnIndex <= initialTableColumnAmount
        invariant Tracking() && ManagerTableWritten() && RelationTableWritten()
        invariant relations == old(relations) + RowRelations(initialTable, titles, rowIndex, columnIndex)
        invariant accountTable == PutCells(old(accountTable), rowIndex, AccountRowCells(initialTable, titles, rowIndex, columnIndex))
      {
        var cellContent := Get(initialTable, rowIndex, columnIndex);
        RowColumnStep(old(relations), old(accountTable), initialTable, titles, rowIndex, columnIndex);
        if cellContent != None {
          ProccesInitialTableCell(rowIndex, columnIndex, accountId, cellContent.value);
        }
        columnIndex := columnIndex + 1;
      }
    }

    /** Formats one cell and routes it by its column's header title. */
    method ProccesInitialTableCell(rowIndex: int, columnIndex: int, accountId: string, cellContent: string)
      requires Classified() && Tracking() && ManagerTableWritten() && RelationTableWritten()
      requires 0 <= columnIndex < initialTableColumnAmount
      requires Get(initialTable, rowIndex, columnIndex) == Some(cellContent)
      requires accountId == AccountId(initialTable, rowIndex)
      modifies this`accountTable, this`managerTable, this`relationTable, this`managerSet,
               this`managerTableRowIndex, this`relationTableRowIndex, this`managers, this`relations
      ensures Tracking() && ManagerTableWritten() && RelationTableWritten()
      ensures var titles := ColumnTitles(initialTable);
        && relations == old(relations) + ColumnRelations(initialTable, titles, rowIndex, columnIndex)
        && accountTable
           == if IsManagerTitle(titles[columnIndex]) then old(accountTable)
              else old(accountTable)[(rowIndex, AccountColumnIndex(titles, columnIndex))
                                       := FormatCellContent(cellContent, columnIndex)]
    {
      hide FormatCellContent, Split, Relate, CellRelations, RowRun, Dedup, ManagerNames, Elements,
           WriteRows, ManagerRows, RelationRows;
      ghost var titles := ColumnTitles(initialTable);
      RowRunAt(initialTable, 0, 0, columnIndex);
      var columnTitle := Get(initialTable, 0, columnIndex).value;
      var content := FormatCellContent(cellContent, columnIndex);
      if IsManagerTitle(columnTitle) {
        ProcessAsManagerCell(accountId, columnTitle, content);
      } else {
        AccountColumnAt(titles, columnIndex);
        ProcessAsAccountCell(rowIndex, columnTitle, content);
      }
    }

    /** Splits a manager cell into its tokens; writes each token new to the run into the
        manager table and every token, new or not, into the relation table. */
    method ProcessAsManagerCell(rowId: string, columnTitle: string, cellContent: string)
      requires Tracking() && ManagerTableWritten() && RelationTableWritten()
      modifies this`managerTable, this`relationTable, this`managerSet,
               this`managerTableRowIndex, this`relationTableRowIndex, this`managers, this`relations
      ensures Tracking() && ManagerTableWritten() && RelationTableWritten()
      ensures relations == old(relations) + CellRelations(rowId, columnTitle, cellContent)
      ensures managerTableRowIndex == 1 + |managerSet|
    {
      var tokens := Split(cellContent, Divider);
      ghost var expected := CellRelations(rowId, columnTitle, cellContent);
      ManagerCount();
      for i := 0 to |tokens|
        invariant Tracking() && ManagerTableWritten() && RelationTableWritten()
        invariant relations == old(relations) + expected[..i]
        invariant managerTableRowIndex == 1 + |managerSet|
      {
        var manager := tokens[i];
        RelateAt(rowId, tokens, RelationType(columnTitle), i);
        ProcessManagerToken(rowId, manager, RelationType(columnTitle));
        AppendSliceStep(old(relations), expected, i);
      }
      assert expected[..|tokens|] == expected;
    }

    /** One token of a manager cell: the manager table, then the relation table. */
    method ProcessManagerToken(rowId: string, manager: string, relationType: string)
      requires Tracking() && ManagerTableWritten() && RelationTableWritten()
      modifies this`managerTable, this`relationTable, this`managerSet,
               this`managerTableRowIndex, this`relationTableRowIndex, this`managers, this`relations
      ensures Tracking() && ManagerTableWritten() && RelationTableWritten()
      ensures relations == old(relations) + [Relation(rowId, manager, relationType)]
      ensures managerTableRowIndex == 1 + |managerSet|
    {
      hide Dedup, ManagerNames, Elements, WriteRows, ManagerRows, RelationRows;
      TrackingStep(managers, relations, managerSet, Relation(rowId, manager, relationType));
      RegisterManager(manager);
      InsertRowInRelationTable(rowId, manager, relationType);
      ManagerCount();
    }

    /** The manager-table half of a token: a name not yet in the set is written to the
        manager table and added to the set. */
    method RegisterManager(manager: string)
      requires ManagerTableWritten()
      modifies this`managerTable, this`managerTableRowIndex, this`managers, this`managerSet
      ensures ManagerTableWritten()
      ensures managerSet == old(managerSet) + {manager}
      ensures managers == if manager in old(managerSet) then old(managers) else old(managers) + [manager]
    {
      if manager !in managerSet {
        InsertInRowManagerTable(manager);
        managerSet := managerSet + {manager};
      }
    }

    /** Writes an attribute cell into the account table, same row, mapped column. */
    method ProcessAsAccountCell(rowIndex: int, columnTitle: string, cellContent: string)
      requires columnTitle in accountTableColumnTitles
      modifies this`accountTable
      ensures accountTable == old(accountTable)[(rowIndex, accountTableColumnTitles[columnTitle]) := cellContent]
    {
      var columnIndex := accountTableColumnTitles[columnTitle];
      accountTable := accountTable[(rowIndex, columnIndex) := cellContent];
    }

    method InsertInRowManagerTable(manager: string)
      modifies this`managerTable, this`managerTableRowIndex, this`managers
      requires ManagerTableWritten()
      ensures managers == old(managers) + [manager]
      ensures ManagerTableWritten()
    {
      managerTable := managerTable[(managerTableRowIndex, 0) := manager];
      managerTableRowIndex := managerTableRowIndex + 1;
      managers := managers + [manager];
      WriteRowSnoc(old(managerTable), old(managerTableRowIndex), 0, [], manager);
      assert [] + [manager] == [manager];
      ManagerRowsAppend(old(managers), manager);
      WriteRowsStep(managerBase, 1, ManagerRows(old(managers)), [manager]);
    }

    method InsertRowInRelationTable(accountId: string, manager: string, relationType: string)
      modifies this`relationTable, this`relationTableRowIndex, this`relations
      requires RelationTableWritten()
      ensures relations == old(relations) + [Relation(accountId, manager, relationType)]
      ensures RelationTableWritten()
    {
      relationTable := relationTable[(relationTableRowIndex, 0) := accountId];
      relationTable := relationTable[(relationTableRowIndex, 1) := manager];
      relationTable := relationTable[(relationTableRowIndex, 2) := relationType];
      relationTableRowIndex := relationTableRowIndex + 1;
      relations := relations + [Relation(accountId, manager, relationType)];
      ghost var g, r := old(relationTable), old(relationTableRowIndex);
      WriteRowSnoc(g, r, 0, [], accountId);
      WriteRowSnoc(g, r, 0, [accountId], manager);
      WriteRowSnoc(g, r, 0, [accountId, manager], relationType);
      assert [] + [accountId] == [accountId] && [accountId] + [manager] == [accountId, manager];
      assert [accountId, manager] + [relationType] == [accountId, manager, relationType];
      RelationRowsAppend(old(relations), Relation(accountId, manager, relationType));
      WriteRowsStep(relationBase, 1, RelationRows(old(relations)), [accountId, manager, relationType]);
    }
  }
}
