/** Parsed workbooks and the choice of the primary ("Summary") and secondary
    ("TaskStatus") tables among their sheets. */
module Sheets {
  import opened Values

  /** One parsed sheet: the header row and the data rows, in sheet order.
      Columns are addressed by position (the reader makes header labels
      unique, so a label names exactly one position). */
  datatype Table = Table(headers: seq<string>, rows: seq<seq<Value>>)

  /** The cell in row `r`, column `c`; a cell the row does not have reads
      as empty. */
  function Cell(t: Table, r: nat, c: nat): Value
  {
    if r < |t.rows| && c < |t.rows[r]| then t.rows[r][c] else Missing
  }

  /** `DataFrame.empty`: no columns or no rows. */
  predicate IsEmpty(t: Table)
  {
    |t.headers| == 0 || |t.rows| == 0
  }

  /** `pd.DataFrame()`. */
  const EmptyTable: Table := Table([], [])

  /** What reading the file yields: a read or parse error, or the sheets
      in workbook order with their names. */
  datatype Workbook = Unreadable | Sheets(sheets: seq<(string, Table)>)

  const PrimaryName: string := "Summary"
  const SecondaryName: string := "TaskStatus"

  predicate HasSheet(sheets: seq<(string, Table)>, name: string)
  {
    exists i :: 0 <= i < |sheets| && sheets[i].0 == name
  }

  /** `sheets_dict[name]`: the table of the sheet called `name`. */
  function SheetNamed(sheets: seq<(string, Table)>, name: string): (t: Table)
    requires HasSheet(sheets, name)
    ensures exists i :: 0 <= i < |sheets| && sheets[i] == (name, t)
  {
    if sheets[0].0 == name then sheets[0].1 else SheetNamed(sheets[1..], name)
  }

  /** How a load ends: both tables bound, or `False` returned with or
      without clearing the tables. */
  datatype LoadResult = Loaded(primary: Table, secondary: Table) | NoSheets | ReadError

  /** The sheet resolution of `load_excel`: the two named sheets if both
      exist, else the first two sheets by position, else the only sheet
      with an empty secondary table. */
  function ResolveSheets(wb: Workbook): (r: LoadResult)
  {
    match wb
    case Unreadable => ReadError
    case Sheets(s) =>
      if HasSheet(s, PrimaryName) && HasSheet(s, SecondaryName) then
        Loaded(SheetNamed(s, PrimaryName), SheetNamed(s, SecondaryName))
      else if |s| >= 2 then Loaded(s[0].1, s[1].1)
      else if |s| == 1 then Loaded(s[0].1, EmptyTable)
      else NoSheets
  }

  /** A load succeeds exactly when the workbook was read and has a sheet;
      an unreadable file is the only failure that clears the tables. */
  lemma ResolveSucceedsIffSomeSheet(wb: Workbook)
    ensures ResolveSheets(wb).Loaded? <==> wb.Sheets? && |wb.sheets| > 0
    ensures ResolveSheets(wb).ReadError? <==> wb.Unreadable?
  {
    if wb.Sheets? && |wb.sheets| == 0 {
      assert !HasSheet(wb.sheets, PrimaryName);
    }
  }

  /** When both named sheets exist they are bound, whatever their position
      and whatever other sheets there are. */
  lemma NamedSheetsWin(s: seq<(string, Table)>, i: nat, j: nat)
    requires i < |s| && j < |s|
    requires s[i].0 == PrimaryName && s[j].0 == SecondaryName
    requires forall k :: 0 <= k < |s| && k != i ==> s[k].0 != PrimaryName
    requires forall k :: 0 <= k < |s| && k != j ==> s[k].0 != SecondaryName
    ensures ResolveSheets(Sheets(s)) == Loaded(s[i].1, s[j].1)
  {
    var p, q := SheetNamed(s, PrimaryName), SheetNamed(s, SecondaryName);
  }

  /** Without both names, two or more sheets bind the first two by
      position, and a single sheet is primary with an empty secondary. */
  lemma PositionalFallback(s: seq<(string, Table)>)
    requires !HasSheet(s, PrimaryName) || !HasSheet(s, SecondaryName)
    ensures |s| >= 2 ==> ResolveSheets(Sheets(s)) == Loaded(s[0].1, s[1].1)
    ensures |s| == 1 ==> ResolveSheets(Sheets(s)) == Loaded(s[0].1, EmptyTable)
    ensures |s| == 0 ==> ResolveSheets(Sheets(s)) == NoSheets
  {
  }
}
