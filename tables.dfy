/**
 A spreadsheet as the scripts see it after reading: an ordered list of column
 names and rows of cells, addressed by position. A cell holds the text pandas
 would show for it, or nothing when it is missing (NaN).
 */
module Tables {
  import opened Wrappers
  import opened Text

  /** One cell: Some(text), or None for a missing value. */
  type Cell = Option<string>

  datatype Table = Table(columns: seq<string>, rows: seq<seq<Cell>>)

  /** Every row has one cell per column. */
  predicate Wf(t: Table) {
    forall i :: 0 <= i < |t.rows| ==> |t.rows[i]| == |t.columns|
  }

  /** DataFrame.empty: the table has no rows or no columns. */
  predicate IsEmpty(t: Table) {
    |t.rows| == 0 || |t.columns| == 0
  }

  /** astype(str) on one cell: a missing value reads "nan". */
  function AsText(c: Cell): string {
    match c
    case None => "nan"
    case Some(s) => s
  }

  /** The position of the first column called name, if any. */
  function ColumnIndex(columns: seq<string>, name: string): (r: Option<nat>)
    ensures r.None? <==> name !in columns
    ensures r.Some? ==> r.value < |columns| && columns[r.value] == name && name !in columns[..r.value]
  {
    if columns == [] then None
    else if columns[0] == name then Some(0)
    else
      match ColumnIndex(columns[1..], name)
      case None => None
      case Some(k) =>
        assert columns[1..][..k] == columns[1..k + 1];
        Some(k + 1)
  }

  /** The values of column j, top to bottom. */
  function Column(t: Table, j: nat): (r: seq<Cell>)
    requires Wf(t) && j < |t.columns|
    ensures |r| == |t.rows| && forall i :: 0 <= i < |r| ==> r[i] == t.rows[i][j]
  {
    seq(|t.rows|, i requires 0 <= i < |t.rows| => t.rows[i][j])
  }

  /** row.get(name, None): the cell of the first column called name, or a
      missing value when there is no such column. */
  function Get(columns: seq<string>, row: seq<Cell>, name: string): (r: Cell)
    requires |row| == |columns|
    ensures name !in columns ==> r.None?
    ensures name in columns ==> r == row[ColumnIndex(columns, name).value]
  {
    match ColumnIndex(columns, name)
    case None => None
    case Some(j) => row[j]
  }

  /** df[c].astype(str).str.contains(p, case=False).any(): some value of the
      column, read as text, contains p when case is ignored. */
  predicate ColumnMentions(t: Table, j: nat, p: string)
    requires Wf(t) && j < |t.columns|
  {
    exists i :: 0 <= i < |t.rows| && ContainsIgnoreCase(AsText(t.rows[i][j]), p)
  }
}
