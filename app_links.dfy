/**
 The table operations of the web app (app_links.py): header and store-name
 cleaning, detection of the link_* columns, the ordered de-duplication of the
 links of one row, the per-store aggregation of those lists, the table of
 links built for one side of the comparison, and the sheet-name limit of the
 workbook writer.
 */
module AppLinks {
  import opened Wrappers
  import opened Text
  import opened Sequences
  import opened Ordering
  import opened Tables

  // ------------------------------------------------------------ cleaning

  /** The header matches ^Unnamed when case is ignored: the name pandas gives
      a column without a header. */
  predicate IsUnnamed(name: string) {
    StartsWithIgnoreCase(name, "unnamed")
  }

  /** The positions of the columns that are not Unnamed, ascending. */
  function KeptColumns(columns: seq<string>): (idx: seq<nat>)
    ensures forall k :: 0 <= k < |idx| ==> idx[k] < |columns| && !IsUnnamed(columns[idx[k]])
    ensures forall j :: 0 <= j < |columns| && !IsUnnamed(columns[j]) ==> j in idx
    ensures forall k, m :: 0 <= k < m < |idx| ==> idx[k] < idx[m]
  {
    if columns == [] then []
    else
      var n := |columns| - 1;
      var prefix := columns[..n];
      assert forall j :: 0 <= j < n ==> prefix[j] == columns[j];
      KeepLast(columns, KeptColumns(prefix))
  }

  /** One more column on the right: its position joins the kept positions of
      the columns before it unless it is an "Unnamed" one. */
  function KeepLast(columns: seq<string>, idx: seq<nat>): (r: seq<nat>)
    requires columns != []
    requires forall k :: 0 <= k < |idx| ==> idx[k] < |columns| - 1 && !IsUnnamed(columns[idx[k]])
    requires forall j :: 0 <= j < |columns| - 1 && !IsUnnamed(columns[j]) ==> j in idx
    requires forall k, m :: 0 <= k < m < |idx| ==> idx[k] < idx[m]
    ensures forall k :: 0 <= k < |r| ==> r[k] < |columns| && !IsUnnamed(columns[r[k]])
    ensures forall j :: 0 <= j < |columns| && !IsUnnamed(columns[j]) ==> j in r
    ensures forall k, m :: 0 <= k < m < |r| ==> r[k] < r[m]
  {
    var n := |columns| - 1;
    if IsUnnamed(columns[n]) then idx
    else
      var r := idx + [n];
      assert forall k :: 0 <= k < |idx| ==> r[k] == idx[k];
      r
  }

  /** The cells of a row at the given positions. */
  function Project(row: seq<Cell>, idx: seq<nat>): seq<Cell>
    requires forall k :: 0 <= k < |idx| ==> idx[k] < |row|
  {
    seq(|idx|, k requires 0 <= k < |idx| => row[idx[k]])
  }

  /** The store normalisation of one cell: as text, stripped, with every run
      of whitespace made one space. */
  function NormalizeStore(c: Cell): Cell {
    Some(NormalizeSpaces(AsText(c)))
  }

  /** Column j of every row replaced by its normalised value. */
  function NormalizeColumn(rows: seq<seq<Cell>>, j: nat): (r: seq<seq<Cell>>)
    requires forall i :: 0 <= i < |rows| ==> j < |rows[i]|
    ensures |r| == |rows| && forall i :: 0 <= i < |r| ==> |r[i]| == |rows[i]|
  {
    seq(|rows|, i requires 0 <= i < |rows| => rows[i][j := NormalizeStore(rows[i][j])])
  }

  /** The headers that are not Unnamed, stripped, in order. */
  function CleanHeaders(columns: seq<string>): seq<string> {
    StrippedAt(columns, KeptColumns(columns))
  }

  /** The headers at the given positions, stripped. */
  function StrippedAt(columns: seq<string>, idx: seq<nat>): (r: seq<string>)
    requires forall k :: 0 <= k < |idx| ==> idx[k] < |columns|
    ensures |r| == |idx| && forall k :: 0 <= k < |idx| ==> r[k] == Strip(columns[idx[k]])
  {
    seq(|idx|, k requires 0 <= k < |idx| => Strip(columns[idx[k]]))
  }

  /** df.loc[:, kept]: the cells of every row at the kept positions. */
  function ProjectRows(rows: seq<seq<Cell>>, idx: seq<nat>, width: nat): (r: seq<seq<Cell>>)
    requires forall i :: 0 <= i < |rows| ==> |rows[i]| == width
    requires forall k :: 0 <= k < |idx| ==> idx[k] < width
    ensures |r| == |rows| && forall i :: 0 <= i < |r| ==> |r[i]| == |idx|
  {
    seq(|rows|, i requires 0 <= i < |rows| => Project(rows[i], idx))
  }

  /** Two columns are called "tienda" after cleaning; df["tienda"] is then a
      table, which has no .str accessor. */
  datatype CleanError = StoreColumnNotUnique

  /** The "tienda" step: without such a column the table is left alone, one
      such column is normalised, two make the step fail. */
  function NormalizeStoreColumn(t: Table): (r: Result<Table, CleanError>)
    requires Wf(t)
    ensures r.Ok? ==> Wf(r.value) && r.value.columns == t.columns && |r.value.rows| == |t.rows|
  {
    var n := multiset(t.columns)["tienda"];
    if n == 0 then Ok(t)
    else if n == 1 then Ok(Table(t.columns, NormalizeColumn(t.rows, ColumnIndex(t.columns, "tienda").value)))
    else Err(StoreColumnNotUnique)
  }

  /** limpiar_df: an empty table is returned as it is; otherwise the Unnamed
      columns are dropped, the remaining headers stripped, and the values of
      the "tienda" column normalised. */
  function Cleaned(t: Table): (r: Result<Table, CleanError>)
    requires Wf(t)
    ensures r.Ok? ==> Wf(r.value) && |r.value.rows| == |t.rows|
  {
    if IsEmpty(t) then Ok(t)
    else
      var idx := KeptColumns(t.columns);
      NormalizeStoreColumn(Table(CleanHeaders(t.columns), ProjectRows(t.rows, idx, |t.columns|)))
  }


  /** A "tienda" header survives the header cleaning. */
  lemma CleanHeadersKeepStore(columns: seq<string>)
    requires "tienda" in columns
    ensures "tienda" in CleanHeaders(columns)
  {
    var idx := KeptColumns(columns);
    var j :| 0 <= j < |columns| && columns[j] == "tienda";
    StoreHeaderPlain();
    assert !IsUnnamed(columns[j]);
    var k :| 0 <= k < |idx| && idx[k] == j;
    StripTrimmed("tienda");
    assert CleanHeaders(columns)[k] == "tienda";
  }

  /** A "tienda" column survives cleaning. */
  lemma CleanedKeepsStoreColumn(t: Table)
    requires Wf(t) && Cleaned(t).Ok? && "tienda" in t.columns
    ensures "tienda" in Cleaned(t).value.columns
  {
    if !IsEmpty(t) {
      CleanHeadersKeepStore(t.columns);
      var u := Table(CleanHeaders(t.columns), ProjectRows(t.rows, KeptColumns(t.columns), |t.columns|));
      assert Cleaned(t) == NormalizeStoreColumn(u);
    }
  }

  /** The "tienda" step touches only the cells of the "tienda" column. */
  lemma NormalizeStoreColumnCells(u: Table)
    requires Wf(u) && NormalizeStoreColumn(u).Ok?
    ensures |NormalizeStoreColumn(u).value.rows| == |u.rows|
    ensures forall i, k :: 0 <= i < |u.rows| && 0 <= k < |u.columns| ==>
      NormalizeStoreColumn(u).value.rows[i][k] ==
        if u.columns[k] == "tienda" then NormalizeStore(u.rows[i][k]) else u.rows[i][k]
  {
    CountAtLeastTwo(u.columns, "tienda");
    if "tienda" in u.columns {
      var j := ColumnIndex(u.columns, "tienda").value;
      assert forall k :: 0 <= k < |u.columns| && u.columns[k] == "tienda" ==> k == j;
    }
  }

  /** What cleaning does to the headers and cells: it keeps exactly the
      columns that are not Unnamed, in their order, with stripped headers;
      every cell is carried over, the "tienda" ones normalised. */
  lemma CleanedLayout(t: Table) returns (idx: seq<nat>)
    requires Wf(t) && Cleaned(t).Ok? && !IsEmpty(t)
    ensures idx == KeptColumns(t.columns)
    ensures forall k, m :: 0 <= k < m < |idx| ==> idx[k] < idx[m]
    ensures forall k :: 0 <= k < |idx| ==> idx[k] < |t.columns|
    ensures forall j :: 0 <= j < |t.columns| ==> (j in idx <==> !IsUnnamed(t.columns[j]))
    ensures |Cleaned(t).value.columns| == |idx|
    ensures forall k :: 0 <= k < |idx| ==> Cleaned(t).value.columns[k] == Strip(t.columns[idx[k]])
    ensures |Cleaned(t).value.rows| == |t.rows|
    ensures forall i, k :: 0 <= i < |t.rows| && 0 <= k < |idx| ==>
      Cleaned(t).value.rows[i][k] ==
        if Cleaned(t).value.columns[k] == "tienda" then NormalizeStore(t.rows[i][idx[k]]) else t.rows[i][idx[k]]
  {
    idx := KeptColumns(t.columns);
    var u := Table(CleanHeaders(t.columns), ProjectRows(t.rows, idx, |t.columns|));
    assert Cleaned(t) == NormalizeStoreColumn(u);
    NormalizeStoreColumnCells(u);
  }

  /** After cleaning, every value of the "tienda" column is present, has no
      whitespace at either end and no run of two blanks. */
  lemma CleanedStoresNormalized(t: Table, j: nat, i: nat)
    requires Wf(t) && Cleaned(t).Ok? && !IsEmpty(t)
    requires j < |Cleaned(t).value.columns| && Cleaned(t).value.columns[j] == "tienda"
    requires i < |Cleaned(t).value.rows|
    ensures Cleaned(t).value.rows[i][j].Some?
    ensures Trimmed(Cleaned(t).value.rows[i][j].value) && Collapsed(Cleaned(t).value.rows[i][j].value)
  {
    var idx := CleanedLayout(t);
    var c := Cleaned(t).value;
    assert c.rows[i][j] == NormalizeStore(t.rows[i][idx[j]]);
  }

  /** Past the empty-table case, cleaning fails exactly when two cleaned
      headers are "tienda". */
  lemma CleanedErrCount(t: Table)
    requires Wf(t) && !IsEmpty(t)
    ensures Cleaned(t).Err? <==> multiset(CleanHeaders(t.columns))["tienda"] >= 2
  {
    var u := Table(CleanHeaders(t.columns), ProjectRows(t.rows, KeptColumns(t.columns), |t.columns|));
    assert Cleaned(t) == NormalizeStoreColumn(u);
    NormalizeStoreColumnErr(u);
  }

  /** The store column normalisation fails exactly on two "tienda" headers. */
  lemma NormalizeStoreColumnErr(t: Table)
    requires Wf(t)
    ensures NormalizeStoreColumn(t).Err? <==> multiset(t.columns)["tienda"] >= 2
  {
  }

  /** A column that is not Unnamed has a place among the cleaned headers,
      where its stripped header stands. */
  lemma KeptPosition(columns: seq<string>, j: nat) returns (a: nat)
    requires j < |columns| && !IsUnnamed(columns[j])
    ensures a < |KeptColumns(columns)| && KeptColumns(columns)[a] == j
    ensures a < |CleanHeaders(columns)| && CleanHeaders(columns)[a] == Strip(columns[j])
  {
    var idx := KeptColumns(columns);
    a :| 0 <= a < |idx| && idx[a] == j;
  }

  /** Two kept columns that strip to "tienda" give two "tienda" headers. */
  lemma TwoStoreColumnsGiveHeaders(columns: seq<string>, j: nat, k: nat)
    requires j < k < |columns| && TwoStoreColumns(columns, j, k)
    ensures multiset(CleanHeaders(columns))["tienda"] >= 2
  {
    var a := KeptPosition(columns, j);
    var b := KeptPosition(columns, k);
    var headers := CleanHeaders(columns);
    assert a < b && headers[a] == "tienda" && headers[b] == "tienda";
    CountAtLeastTwo(headers, "tienda");
  }

  /** Two "tienda" headers come from two kept columns that strip to "tienda". */
  lemma HeadersGiveTwoStoreColumns(columns: seq<string>) returns (j: nat, k: nat)
    requires multiset(CleanHeaders(columns))["tienda"] >= 2
    ensures j < k < |columns| && TwoStoreColumns(columns, j, k)
  {
    var idx := KeptColumns(columns);
    var headers := CleanHeaders(columns);
    CountAtLeastTwo(headers, "tienda");
    var a, b :| 0 <= a < b < |headers| && headers[a] == "tienda" && headers[b] == "tienda";
    j, k := idx[a], idx[b];
    assert j < k < |columns|;
    assert Strip(columns[j]) == headers[a] && Strip(columns[k]) == headers[b];
  }

  /** Two cleaned headers are "tienda" exactly when two kept columns strip to
      "tienda". */
  lemma TwoCleanedStoreHeaders(columns: seq<string>)
    ensures multiset(CleanHeaders(columns))["tienda"] >= 2 <==>
      exists j, k :: 0 <= j < k < |columns| && TwoStoreColumns(columns, j, k)
  {
    if exists j, k :: 0 <= j < k < |columns| && TwoStoreColumns(columns, j, k) {
      var j, k :| 0 <= j < k < |columns| && TwoStoreColumns(columns, j, k);
      TwoStoreColumnsGiveHeaders(columns, j, k);
    }
    if multiset(CleanHeaders(columns))["tienda"] >= 2 {
      var j, k := HeadersGiveTwoStoreColumns(columns);
    }
  }

  /** Cleaning fails exactly when the table is not empty and two columns that
      are not Unnamed both strip to "tienda". */
  lemma CleanedFails(t: Table)
    requires Wf(t)
    ensures Cleaned(t).Err? <==>
      !IsEmpty(t) && exists j, k :: 0 <= j < k < |t.columns| && TwoStoreColumns(t.columns, j, k)
  {
    if !IsEmpty(t) {
      CleanedErrCount(t);
      TwoCleanedStoreHeaders(t.columns);
    }
  }

  /** Columns j and k both survive the Unnamed filter and strip to "tienda". */
  predicate TwoStoreColumns(columns: seq<string>, j: nat, k: nat)
    requires j < |columns| && k < |columns|
  {
    !IsUnnamed(columns[j]) && !IsUnnamed(columns[k]) && Strip(columns[j]) == "tienda" && Strip(columns[k]) == "tienda"
  }

  /** A leading blank hides the Unnamed prefix from the filter. */
  lemma LeadingBlankNotUnnamed()
    ensures KeptColumns([" Unnamed: 0", "x"]) == [0, 1]
  {
    var u := " Unnamed: 0";
    assert !IsUnnamed(u) by {
      assert Lower(u[0]) != "unnamed"[0];
    }
    assert !IsUnnamed("x") by {
      assert |"x"| < |"unnamed"|;
    }
    assert [u, "x"][..1] == [u];
    assert [u][..0] == [];
    assert KeptColumns([u]) == [0];
  }

  /** The first cleaning keeps " Unnamed: 0" and strips its blank. */
  lemma LeadingBlankHeaderKept()
    ensures CleanHeaders([" Unnamed: 0", "x"]) == ["Unnamed: 0", "x"]
  {
    var u := " Unnamed: 0";
    LeadingBlankNotUnnamed();
    assert Strip(u) == u[1..] by {
      assert SkipSpaces(u, 1) == 1;
      assert SkipSpaces(u, 0) == 1;
      assert SkipSpacesBack(u, |u|) == |u|;
    }
    StripTrimmed("x");
  }

  /** The second cleaning drops "Unnamed: 0". */
  lemma StrippedUnnamedHeaderDropped()
    ensures CleanHeaders(["Unnamed: 0", "x"]) == ["x"]
  {
    var u := "Unnamed: 0";
    assert IsUnnamed(u);
    assert !IsUnnamed("x") by {
      assert |"x"| < |"unnamed"|;
    }
    assert KeptColumns([u, "x"]) == [1] by {
      assert [u, "x"][..1] == [u];
      assert [u][..0] == [];
      assert KeptColumns([u]) == [];
    }
    StripTrimmed("x");
  }

  /** The headers " Unnamed: 0" and "x": the first survives the Unnamed filter
      because of its leading blank and is then stripped to "Unnamed: 0", so a
      second cleaning drops it. Cleaning is not idempotent. */
  lemma CleanedTwiceDropsMore()
    ensures var t := Table([" Unnamed: 0", "x"], [[Some("a"), Some("b")]]);
      Cleaned(t).Ok? && Cleaned(Cleaned(t).value).Ok? &&
      |Cleaned(Cleaned(t).value).value.columns| < |Cleaned(t).value.columns|
  {
    var t := Table([" Unnamed: 0", "x"], [[Some("a"), Some("b")]]);
    LeadingBlankHeaderKept();
    var h1 := ["Unnamed: 0", "x"];
    assert multiset(h1)["tienda"] == 0;
    var c := Table(h1, ProjectRows(t.rows, KeptColumns(t.columns), 2));
    assert Cleaned(t) == Ok(c);
    StrippedUnnamedHeaderDropped();
    var h2 := ["x"];
    assert multiset(h2)["tienda"] == 0;
    assert Cleaned(c).Ok? && Cleaned(c).value.columns == h2;
  }

  /** Drops the Unnamed columns and strips the headers, one header at a time. */
  method CleanColumns(columns: seq<string>) returns (idx: seq<nat>, headers: seq<string>)
    ensures idx == KeptColumns(columns) && headers == CleanHeaders(columns)
  {
    idx := [];
    headers := [];
    for j := 0 to |columns|
      invariant idx == KeptColumns(columns[..j])
      invariant forall k :: 0 <= k < |idx| ==> idx[k] < j
      invariant headers == StrippedAt(columns, idx)
    {
      KeptColumnsStep(columns, j);
      if !IsUnnamed(columns[j]) {
        StrippedAtSnoc(columns, idx, j);
        idx := idx + [j];
        headers := headers + [Strip(columns[j])];
      }
    }
    assert columns[..|columns|] == columns;
  }

  /** Stripping one more header at the end. */
  lemma StrippedAtSnoc(columns: seq<string>, idx: seq<nat>, j: nat)
    requires j < |columns| && forall k :: 0 <= k < |idx| ==> idx[k] < |columns|
    ensures StrippedAt(columns, idx + [j]) == StrippedAt(columns, idx) + [Strip(columns[j])]
  {
  }

  /** Keeping among the first j + 1 headers is keeping among the first j, then
      header j unless it is Unnamed. */
  lemma KeptColumnsStep(columns: seq<string>, j: nat)
    requires j < |columns|
    ensures KeptColumns(columns[..j + 1]) == KeptColumns(columns[..j]) + (if IsUnnamed(columns[j]) then [] else [j])
  {
    assert columns[..j + 1][..j] == columns[..j];
  }

  /** Overwrites column j of every row with its normalised value. */
  method NormalizeStoreRows(rows: seq<seq<Cell>>, j: nat) returns (r: seq<seq<Cell>>)
    requires forall i :: 0 <= i < |rows| ==> j < |rows[i]|
    ensures r == NormalizeColumn(rows, j)
  {
    r := rows;
    for i := 0 to |r|
      invariant |r| == |rows|
      invariant forall i' :: 0 <= i' < i ==> r[i'] == rows[i'][j := NormalizeStore(rows[i'][j])]
      invariant forall i' :: i <= i' < |r| ==> r[i'] == rows[i']
    {
      r := r[i := r[i][j := NormalizeStore(r[i][j])]];
    }
  }

  /** limpiar_df step by step, as the function reassigns its table's headers
      and then its "tienda" column. */
  method CleanTable(t: Table) returns (r: Result<Table, CleanError>)
    requires Wf(t)
    ensures r == Cleaned(t)
  {
    if |t.rows| == 0 || |t.columns| == 0 {
      return Ok(t);
    }
    var idx, columns := CleanColumns(t.columns);
    var rows := ProjectRows(t.rows, idx, |t.columns|);
    var n := multiset(columns)["tienda"];
    if n > 1 {
      return Err(StoreColumnNotUnique);
    }
    if n == 1 {
      rows := NormalizeStoreRows(rows, ColumnIndex(columns, "tienda").value);
    }
    r := Ok(Table(columns, rows));
  }

  // -------------------------------------------------------- link columns

  /** The header starts with "link" when case is ignored. */
  predicate IsLinkName(name: string) {
    StartsWithIgnoreCase(name, "link")
  }

  /** The store header "tienda" is neither Unnamed nor a link column. */
  lemma StoreHeaderPlain()
    ensures !IsUnnamed("tienda") && !IsLinkName("tienda")
  {
    assert !MatchesIgnoreCase("tienda"[0], "unnamed"[0]);
    assert !MatchesIgnoreCase("tienda"[0], "link"[0]);
  }

  /** Which headers are link headers. */
  function LinkFlags(columns: seq<string>): seq<bool> {
    seq(|columns|, j requires 0 <= j < |columns| => IsLinkName(columns[j]))
  }

  /** detectar_cols_link: the headers that are link headers, in table order. */
  function DetectLinkColumns(columns: seq<string>): (r: seq<string>)
    ensures forall c :: c in r <==> c in columns && IsLinkName(c)
    ensures |r| <= |columns|
    ensures (forall c :: c in columns ==> !IsLinkName(c)) ==> r == []
  {
    var idx := TruePositions(LinkFlags(columns));
    var r := seq(|idx|, k requires 0 <= k < |idx| => columns[idx[k]]);
    assert forall j :: 0 <= j < |columns| && IsLinkName(columns[j]) ==> columns[j] in r by {
      forall j | 0 <= j < |columns| && IsLinkName(columns[j])
        ensures columns[j] in r
      {
        assert LinkFlags(columns)[j];
        var k :| 0 <= k < |idx| && idx[k] == j;
        assert r[k] == columns[j];
      }
    }
    assert forall k :: 0 <= k < |idx| ==> LinkFlags(columns)[idx[k]] && IsLinkName(r[k]) && r[k] in columns;
    assert r != [] ==> r[0] in columns && IsLinkName(r[0]);
    r
  }

  /** The detected columns keep table order: they sit at ascending positions
      of the table, and every link header's position is among them. */
  lemma DetectLinkColumnsOrder(columns: seq<string>) returns (idx: seq<nat>)
    ensures |idx| == |DetectLinkColumns(columns)|
    ensures forall k :: 0 <= k < |idx| ==> idx[k] < |columns| && DetectLinkColumns(columns)[k] == columns[idx[k]]
    ensures forall k, m :: 0 <= k < m < |idx| ==> idx[k] < idx[m]
    ensures forall j :: 0 <= j < |columns| && IsLinkName(columns[j]) ==> j in idx
  {
    idx := TruePositions(LinkFlags(columns));
    forall j | 0 <= j < |columns| && IsLinkName(columns[j])
      ensures j in idx
    {
      assert LinkFlags(columns)[j];
    }
  }

  /** The fallback to a column literally called "link" can never apply: such
      a column is already found by the prefix test. */
  lemma LinkFallbackUnreachable(columns: seq<string>)
    requires "link" in columns
    ensures "link" in DetectLinkColumns(columns)
  {
    assert IsLinkName("link");
  }

  // ----------------------------------------------------- links of one row

  /** The stripped, non-blank values of the link columns of one row, column by
      column (the list vals). */
  function RowValues(columns: seq<string>, row: seq<Cell>, linkCols: seq<string>): (vals: seq<string>)
    requires |row| == |columns|
    ensures forall k :: 0 <= k < |vals| ==> vals[k] != "" && Trimmed(vals[k])
  {
    if linkCols == [] then []
    else
      var vals := RowValues(columns, row, linkCols[..|linkCols| - 1]);
      var v := Get(columns, row, linkCols[|linkCols| - 1]);
      if v.Some? && Strip(v.value) != "" then vals + [Strip(v.value)] else vals
  }

  /** The link column c holds a value that strips to the non-blank v. */
  predicate ColumnGives(columns: seq<string>, row: seq<Cell>, c: string, v: string)
    requires |row| == |columns|
  {
    var cell := Get(columns, row, c);
    cell.Some? && Strip(cell.value) == v && v != ""
  }

  /** A value is collected exactly when it is the stripped, non-blank value of
      one of the link columns. */
  lemma {:induction false} RowValuesMembers(columns: seq<string>, row: seq<Cell>, linkCols: seq<string>, v: string)
    requires |row| == |columns|
    ensures v in RowValues(columns, row, linkCols) <==>
      exists k :: 0 <= k < |linkCols| && ColumnGives(columns, row, linkCols[k], v)
  {
    if linkCols != [] {
      var n := |linkCols| - 1;
      var p := linkCols[..n];
      RowValuesMembers(columns, row, p, v);
      RowValuesLast(columns, row, linkCols, v);
      assert forall k :: 0 <= k < n ==> p[k] == linkCols[k];
    }
  }

  /** The last link column adds its value, if it gives one. */
  lemma RowValuesLast(columns: seq<string>, row: seq<Cell>, linkCols: seq<string>, v: string)
    requires |row| == |columns| && linkCols != []
    ensures v in RowValues(columns, row, linkCols) <==>
      v in RowValues(columns, row, linkCols[..|linkCols| - 1]) || ColumnGives(columns, row, linkCols[|linkCols| - 1], v)
  {
    RowValuesStep(columns, row, linkCols);
    AppendedValue(RowValues(columns, row, linkCols[..|linkCols| - 1]), Get(columns, row, linkCols[|linkCols| - 1]), v);
  }

  /** Appending the stripped value of a cell, when it is not blank, adds
      exactly that value. */
  lemma AppendedValue(vals: seq<string>, cell: Cell, v: string)
    ensures v in vals + (if cell.Some? && Strip(cell.value) != "" then [Strip(cell.value)] else []) <==>
      v in vals || (cell.Some? && Strip(cell.value) == v && v != "")
  {
    if cell.Some? && Strip(cell.value) != "" {
      assert v in vals + [Strip(cell.value)] <==> v in vals || v == Strip(cell.value);
    } else {
      assert vals + [] == vals;
    }
  }

  /** RowValues appends the value of the last link column, if any. */
  lemma RowValuesStep(columns: seq<string>, row: seq<Cell>, linkCols: seq<string>)
    requires |row| == |columns| && linkCols != []
    ensures var cell := Get(columns, row, linkCols[|linkCols| - 1]);
      RowValues(columns, row, linkCols) == RowValues(columns, row, linkCols[..|linkCols| - 1]) +
        (if cell.Some? && Strip(cell.value) != "" then [Strip(cell.value)] else [])
  {
  }

  /** links_por_fila as the source writes it: collect the values, then keep
      the first of each with a set of values already seen. */
  method LinksPerRow(columns: seq<string>, row: seq<Cell>, linkCols: seq<string>) returns (ordered: seq<string>)
    requires |row| == |columns|
    ensures ordered == Distinct(RowValues(columns, row, linkCols))
  {
    var vals := CollectRowValues(columns, row, linkCols);
    ordered := KeepFirstSeen(vals);
  }

  /** The first loop of links_por_fila: the stripped, non-blank values of the
      link columns, appended in column order. */
  method CollectRowValues(columns: seq<string>, row: seq<Cell>, linkCols: seq<string>) returns (vals: seq<string>)
    requires |row| == |columns|
    ensures vals == RowValues(columns, row, linkCols)
  {
    vals := [];
    for k := 0 to |linkCols|
      invariant vals == RowValues(columns, row, linkCols[..k])
    {
      assert linkCols[..k + 1][..k] == linkCols[..k];
      var v := Get(columns, row, linkCols[k]);
      if v.Some? && Strip(v.value) != "" {
        vals := vals + [Strip(v.value)];
      }
    }
    assert linkCols[..|linkCols|] == linkCols;
  }

  /** The second loop of links_por_fila: each value the first time it is
      seen. */
  method KeepFirstSeen(vals: seq<string>) returns (ordered: seq<string>)
    ensures ordered == Distinct(vals)
  {
    var seen: set<string> := {};
    ordered := [];
    for i := 0 to |vals|
      invariant ordered == Distinct(vals[..i])
      invariant seen == set x | x in ordered
    {
      assert vals[..i + 1][..i] == vals[..i];
      assert vals[..i + 1] == vals[..i] + [vals[i]];
      if vals[i] !in seen {
        ordered := ordered + [vals[i]];
        seen := seen + {vals[i]};
      }
    }
    assert vals[..|vals|] == vals;
  }

  /** The links of row i: what links_por_fila returns for it. */
  function RowLinks(t: Table, linkCols: seq<string>, i: nat): seq<string>
    requires Wf(t) && i < |t.rows|
  {
    Distinct(RowValues(t.columns, t.rows[i], linkCols))
  }

  // ------------------------------------------------------------ aggregation

  /** One row of the aggregated table: a store and its list of links. */
  datatype StoreLinks = StoreLinks(store: Cell, links: seq<string>)

  /** The values of the "tienda" column. */
  function StoreCells(t: Table): seq<Cell>
    requires Wf(t) && "tienda" in t.columns
  {
    Column(t, ColumnIndex(t.columns, "tienda").value)
  }

  /** tmp["links"]: the list of links of every row. */
  function RowLinkLists(t: Table, linkCols: seq<string>): (r: seq<seq<string>>)
    requires Wf(t)
    ensures |r| == |t.rows| && forall i :: 0 <= i < |r| ==> r[i] == RowLinks(t, linkCols, i)
  {
    seq(|t.rows|, i requires 0 <= i < |t.rows| => RowLinks(t, linkCols, i))
  }

  /** The lists whose key is k, in order. */
  function ListsWithKey(keys: seq<Cell>, lists: seq<seq<string>>, k: Cell): seq<seq<string>>
    requires |keys| == |lists|
  {
    if keys == [] then []
    else
      var n := |keys| - 1;
      ListsWithKey(keys[..n], lists[..n], k) + (if keys[n] == k then [lists[n]] else [])
  }

  /** Whether each key is k. */
  function KeyFlags(keys: seq<Cell>, k: Cell): seq<bool> {
    seq(|keys|, j requires 0 <= j < |keys| => keys[j] == k)
  }

  /** The m-th list with key k is the list at the m-th position holding k. */
  lemma {:induction false} ListsWithKeyPicks(keys: seq<Cell>, lists: seq<seq<string>>, k: Cell)
    requires |keys| == |lists|
    ensures var rows := TruePositions(KeyFlags(keys, k));
      var w := ListsWithKey(keys, lists, k);
      |w| == |rows| && forall m :: 0 <= m < |rows| ==> w[m] == lists[rows[m]]
  {
    if keys != [] {
      var n := |keys| - 1;
      ListsWithKeyPicks(keys[..n], lists[..n], k);
      var ps := TruePositions(KeyFlags(keys[..n], k));
      var p := ListsWithKey(keys[..n], lists[..n], k);
      var flags := KeyFlags(keys, k);
      assert flags[..n] == KeyFlags(keys[..n], k);
      assert TruePositions(flags) == ps + (if flags[n] then [n] else []);
      assert ListsWithKey(keys, lists, k) == p + (if keys[n] == k then [lists[n]] else []);
      assert forall m :: 0 <= m < |ps| ==> ps[m] < n && lists[..n][ps[m]] == lists[ps[m]];
      PickSnoc(lists, p, ps, n, keys[n] == k);
    }
  }

  /** The lists with key k are those of the rows holding k, in row order:
      rows lists exactly those positions, ascending. */
  lemma ListsWithKeyRows(keys: seq<Cell>, lists: seq<seq<string>>, k: Cell) returns (rows: seq<nat>)
    requires |keys| == |lists|
    ensures forall m :: 0 <= m < |rows| ==> rows[m] < |keys| && keys[rows[m]] == k
    ensures forall m, m' :: 0 <= m < m' < |rows| ==> rows[m] < rows[m']
    ensures forall j :: 0 <= j < |keys| && keys[j] == k ==> j in rows
    ensures |ListsWithKey(keys, lists, k)| == |rows|
    ensures forall m :: 0 <= m < |rows| ==> ListsWithKey(keys, lists, k)[m] == lists[rows[m]]
  {
    var flags := KeyFlags(keys, k);
    rows := TruePositions(flags);
    ListsWithKeyPicks(keys, lists, k);
    forall j | 0 <= j < |keys| && keys[j] == k
      ensures j in rows
    {
      assert flags[j];
    }
    assert forall m :: 0 <= m < |rows| ==> flags[rows[m]];
  }

  /** A value is in the concatenated lists of key k exactly when some list
      with that key holds it. */
  lemma {:induction false} ListsWithKeyMembers(keys: seq<Cell>, lists: seq<seq<string>>, k: Cell, l: string)
    requires |keys| == |lists|
    ensures l in Flatten(ListsWithKey(keys, lists, k)) <==>
      exists i :: 0 <= i < |keys| && keys[i] == k && l in lists[i]
  {
    if keys != [] {
      var n := |keys| - 1;
      ListsWithKeyMembers(keys[..n], lists[..n], k, l);
      var p := ListsWithKey(keys[..n], lists[..n], k);
      var whole := ListsWithKey(keys, lists, k);
      if keys[n] == k {
        assert whole == p + [lists[n]];
        assert whole[..|p|] == p;
        assert Flatten(whole) == Flatten(p) + lists[n];
      } else {
        assert whole == p;
      }
      if l in Flatten(whole) {
        if l in Flatten(p) {
          var i :| 0 <= i < n && keys[..n][i] == k && l in lists[..n][i];
          assert keys[i] == k && l in lists[i];
        } else {
          assert keys[n] == k && l in lists[n];
        }
      }
      if exists i :: 0 <= i < |keys| && keys[i] == k && l in lists[i] {
        var i :| 0 <= i < |keys| && keys[i] == k && l in lists[i];
        if i < n {
          assert keys[..n][i] == k && l in lists[..n][i];
        }
      }
    }
  }

  /** The link columns agregar_links_por_tienda uses. */
  function AggregationColumns(columns: seq<string>): seq<string> {
    var detected := DetectLinkColumns(columns);
    if detected == [] && "link" in columns then ["link"] else detected
  }

  /** agregar_links_por_tienda. Without link columns: every distinct store, in
      order of first appearance, with no links. Otherwise: every distinct
      store, ascending with a missing store last, with the links of its rows
      concatenated and repeats removed. */
  function Aggregated(t: Table): seq<StoreLinks>
    requires Wf(t) && "tienda" in t.columns
  {
    var linkCols := AggregationColumns(t.columns);
    var stores := StoreCells(t);
    if linkCols == [] then
      var ks := Distinct(stores);
      seq(|ks|, i requires 0 <= i < |ks| => StoreLinks(ks[i], []))
    else
      var ks := Sort(Distinct(stores), KeyLt);
      var lists := RowLinkLists(t, linkCols);
      seq(|ks|, i requires 0 <= i < |ks| =>
        StoreLinks(ks[i], Distinct(Flatten(ListsWithKey(stores, lists, ks[i])))))
  }

  /** The stores of an aggregated table. */
  function StoresIn(a: seq<StoreLinks>): seq<Cell> {
    seq(|a|, i requires 0 <= i < |a| => a[i].store)
  }

  /** One row per distinct store: no store twice, every store of the table
      present; ascending when there are link columns, in order of first
      appearance when there are none. */
  lemma AggregatedStores(t: Table)
    requires Wf(t) && "tienda" in t.columns
    ensures NoDup(StoresIn(Aggregated(t)))
    ensures forall k :: k in StoresIn(Aggregated(t)) <==> k in StoreCells(t)
    ensures AggregationColumns(t.columns) != [] ==> StrictlySorted(StoresIn(Aggregated(t)), KeyLt)
    ensures AggregationColumns(t.columns) == [] ==> forall i, j :: 0 <= i < j < |Aggregated(t)| ==>
      FirstIndex(StoreCells(t), Aggregated(t)[i].store) < FirstIndex(StoreCells(t), Aggregated(t)[j].store)
  {
    var stores := StoreCells(t);
    var d := Distinct(stores);
    if AggregationColumns(t.columns) == [] {
      assert StoresIn(Aggregated(t)) == d;
      DistinctKeepsFirstOccurrenceOrder(stores);
    } else {
      KeyLtIsStrictTotalOrder();
      SortOfDistinctIsStrict(d, KeyLt);
      assert StoresIn(Aggregated(t)) == Sort(d, KeyLt);
    }
  }

  /** The links of a store: no repeats, exactly the stripped non-blank link
      values of its rows, and none at all without link columns. */
  lemma AggregatedLinks(t: Table, i: nat, l: string)
    requires Wf(t) && "tienda" in t.columns && i < |Aggregated(t)|
    ensures NoDup(Aggregated(t)[i].links)
    ensures AggregationColumns(t.columns) == [] ==> Aggregated(t)[i].links == []
    ensures l in Aggregated(t)[i].links <==>
      exists j :: 0 <= j < |t.rows| && StoreCells(t)[j] == Aggregated(t)[i].store
        && l in RowValues(t.columns, t.rows[j], AggregationColumns(t.columns))
  {
    var linkCols := AggregationColumns(t.columns);
    if linkCols == [] {
      forall j | 0 <= j < |t.rows| ensures RowValues(t.columns, t.rows[j], linkCols) == [] {
      }
    } else {
      ListsWithKeyMembers(StoreCells(t), RowLinkLists(t, linkCols), Aggregated(t)[i].store, l);
    }
  }

  /** With link columns, the links of a store come in the order of their first
      occurrence in the concatenation of the store's row lists
      (ListsWithKeyRows says which lists, in row order). */
  lemma AggregatedLinksOrder(t: Table, i: nat)
    requires Wf(t) && "tienda" in t.columns && i < |Aggregated(t)|
    requires AggregationColumns(t.columns) != []
    ensures var all := Flatten(ListsWithKey(StoreCells(t), RowLinkLists(t, AggregationColumns(t.columns)), Aggregated(t)[i].store));
      var links := Aggregated(t)[i].links;
      forall a, b :: 0 <= a < b < |links| ==>
        links[a] in all && links[b] in all && FirstIndex(all, links[a]) < FirstIndex(all, links[b])
  {
    var all := Flatten(ListsWithKey(StoreCells(t), RowLinkLists(t, AggregationColumns(t.columns)), Aggregated(t)[i].store));
    assert Aggregated(t)[i].links == Distinct(all);
    DistinctKeepsFirstOccurrenceOrder(all);
  }

  // ------------------------------------------------- links for the comparison

  /** temp[keep].rename(...): the store column followed by the link columns,
      the store column renamed "tienda" and, when asLink names a column, that
      column renamed "link". */
  function KeepColumns(t: Table, storeCol: string, cols: seq<string>, asLink: Option<string>): (r: Table)
    requires Wf(t) && storeCol in t.columns && forall c :: c in cols ==> c in t.columns
    ensures Wf(r) && |r.columns| == |cols| + 1 && r.columns[0] == "tienda"
    ensures forall k :: 0 <= k < |cols| ==>
      r.columns[k + 1] == (if cols[k] == storeCol then "tienda" else if asLink == Some(cols[k]) then "link" else cols[k])
    ensures |r.rows| == |t.rows|
  {
    var keep := [storeCol] + cols;
    var idx := seq(|keep|, k requires 0 <= k < |keep| => ColumnIndex(t.columns, keep[k]).value);
    var names := seq(|keep|, k requires 0 <= k < |keep| =>
      if keep[k] == storeCol then "tienda" else if asLink == Some(keep[k]) then "link" else keep[k]);
    Table(names, seq(|t.rows|, i requires 0 <= i < |t.rows| => Project(t.rows[i], idx)))
  }

  /** Each kept row holds the row's store cell, then its cell of each chosen
      column, as row.get finds them (the first column of that name). */
  lemma KeepColumnsRows(t: Table, storeCol: string, cols: seq<string>, asLink: Option<string>, i: nat)
    requires Wf(t) && storeCol in t.columns && forall c :: c in cols ==> c in t.columns
    requires i < |t.rows|
    ensures KeepColumns(t, storeCol, cols, asLink).rows[i][0] == Get(t.columns, t.rows[i], storeCol)
    ensures forall k :: 0 <= k < |cols| ==>
      KeepColumns(t, storeCol, cols, asLink).rows[i][k + 1] == Get(t.columns, t.rows[i], cols[k])
  {
    KeepColumnsCell(t, storeCol, cols, asLink, i, 0);
    forall k | 0 <= k < |cols|
      ensures KeepColumns(t, storeCol, cols, asLink).rows[i][k + 1] == Get(t.columns, t.rows[i], cols[k])
    {
      KeepColumnsCell(t, storeCol, cols, asLink, i, k + 1);
    }
  }

  /** Cell k of a kept row is the row's cell of the k-th kept column. */
  lemma KeepColumnsCell(t: Table, storeCol: string, cols: seq<string>, asLink: Option<string>, i: nat, k: nat)
    requires Wf(t) && storeCol in t.columns && forall c :: c in cols ==> c in t.columns
    requires i < |t.rows| && k <= |cols|
    ensures KeepColumns(t, storeCol, cols, asLink).rows[i][k] == Get(t.columns, t.rows[i], ([storeCol] + cols)[k])
  {
    var keep := [storeCol] + cols;
    var idx := seq(|keep|, k requires 0 <= k < |keep| => ColumnIndex(t.columns, keep[k]).value);
    assert KeepColumns(t, storeCol, cols, asLink).rows[i] == Project(t.rows[i], idx);
  }

  /** build_links as written: with no link_* columns, the chosen URL column
      is kept under its own name. A missing store column gives an empty
      table. */
  function BuildLinksAsWritten(t: Table, storeCol: string, linkCols: seq<string>, oneCol: Option<string>)
    : Result<seq<StoreLinks>, CleanError>
    requires Wf(t) && (forall c :: c in linkCols ==> c in t.columns)
    requires oneCol.Some? ==> oneCol.value in t.columns
  {
    var cols := if linkCols == [] && oneCol.Some? && oneCol.value != "" then [oneCol.value] else linkCols;
    if storeCol !in t.columns then Ok([])
    else
      var temp := KeepColumns(t, storeCol, cols, None);
      match Cleaned(temp)
      case Err(e) => Err(e)
      case Ok(cleaned) =>
        CleanedKeepsStoreColumn(temp);
        Ok(Aggregated(cleaned))
  }

  /** build_links as its comment intends: the chosen URL column is used "as
      'link'", that is, renamed so that the aggregation finds it. */
  function BuildLinks(t: Table, storeCol: string, linkCols: seq<string>, oneCol: Option<string>)
    : Result<seq<StoreLinks>, CleanError>
    requires Wf(t) && (forall c :: c in linkCols ==> c in t.columns)
    requires oneCol.Some? ==> oneCol.value in t.columns
  {
    var chosen := linkCols == [] && oneCol.Some? && oneCol.value != "";
    var cols := if chosen then [oneCol.value] else linkCols;
    if storeCol !in t.columns then Ok([])
    else
      var temp := KeepColumns(t, storeCol, cols, if chosen then oneCol else None);
      match Cleaned(temp)
      case Err(e) => Err(e)
      case Ok(cleaned) =>
        CleanedKeepsStoreColumn(temp);
        Ok(Aggregated(cleaned))
  }

  /** With one chosen column besides the store column, the kept table is
      headed "tienda" and that column, renamed "link" when asked. */
  lemma KeepOneColumnNames(t: Table, storeCol: string, c: string, asLink: Option<string>)
    requires Wf(t) && storeCol in t.columns && c in t.columns && c != storeCol
    ensures KeepColumns(t, storeCol, [c], asLink).columns == ["tienda", if asLink == Some(c) then "link" else c]
  {
  }

  /** Without a header that starts with "link" the aggregation has no link
      columns. */
  lemma NoLinkNamesNoAggregationColumns(columns: seq<string>)
    requires forall n :: n in columns ==> !IsLinkName(n)
    ensures AggregationColumns(columns) == []
  {
    assert IsLinkName("link");
  }

  /** The headers of a cleaned two-column table are among the stripped
      original headers. */
  lemma CleanedTwoHeaders(t: Table)
    requires Wf(t) && |t.columns| == 2 && Cleaned(t).Ok? && !IsEmpty(t)
    ensures forall n :: n in Cleaned(t).value.columns ==> n == Strip(t.columns[0]) || n == Strip(t.columns[1])
  {
    var idx := CleanedLayout(t);
    forall n | n in Cleaned(t).value.columns ensures n == Strip(t.columns[0]) || n == Strip(t.columns[1]) {
      var k :| 0 <= k < |Cleaned(t).value.columns| && Cleaned(t).value.columns[k] == n;
      if idx[k] == 0 {
        assert n == Strip(t.columns[0]);
      } else {
        assert n == Strip(t.columns[1]);
      }
    }
  }

  /** A table headed "tienda" and one column that does not strip to "tienda"
      cleans without error. */
  lemma CleanedStoreAndOneColumn(t: Table)
    requires Wf(t) && |t.columns| == 2 && t.columns[0] == "tienda" && Strip(t.columns[1]) != "tienda"
    ensures Cleaned(t).Ok?
  {
    CleanedFails(t);
    assert !TwoStoreColumns(t.columns, 0, 1);
  }

  /** Cleaning such a table yields no header that starts with "link" when
      neither the column's header nor its stripped form does. */
  lemma CleanedStoreAndOneColumnNames(t: Table)
    requires Wf(t) && |t.columns| == 2 && t.columns[0] == "tienda" && Cleaned(t).Ok?
    requires !IsLinkName(t.columns[1]) && !IsLinkName(Strip(t.columns[1]))
    ensures forall n :: n in Cleaned(t).value.columns ==> !IsLinkName(n)
  {
    StoreHeaderPlain();
    if !IsEmpty(t) {
      StripTrimmed("tienda");
      assert Strip(t.columns[0]) == "tienda";
      CleanedTwoHeaders(t);
    } else {
      assert Cleaned(t).value.columns == ["tienda", t.columns[1]];
    }
  }

  /** As written, a chosen URL column whose header does not start with "link"
      is ignored: every store gets an empty list. */
  lemma BuildLinksAsWrittenIgnoresChosenColumn(t: Table, storeCol: string, c: string)
    requires Wf(t) && storeCol in t.columns && c in t.columns && c != "" && c != storeCol
    requires !IsLinkName(c) && !IsLinkName(Strip(c)) && Strip(c) != "tienda"
    ensures BuildLinksAsWritten(t, storeCol, [], Some(c)).Ok?
    ensures forall e :: e in BuildLinksAsWritten(t, storeCol, [], Some(c)).value ==> e.links == []
  {
    var temp := KeepColumns(t, storeCol, [c], None);
    KeepOneColumnNames(t, storeCol, c, None);
    CleanedStoreAndOneColumn(temp);
    CleanedStoreAndOneColumnNames(temp);
    var cleaned := Cleaned(temp).value;
    CleanedKeepsStoreColumn(temp);
    assert BuildLinksAsWritten(t, storeCol, [], Some(c)) == Ok(Aggregated(cleaned));
    NoLinkNamesNoAggregationColumns(cleaned.columns);
    forall e | e in Aggregated(cleaned) ensures e.links == [] {
      var i :| 0 <= i < |Aggregated(cleaned)| && Aggregated(cleaned)[i] == e;
      AggregatedLinks(cleaned, i, "");
    }
  }

  /** The headers "tienda" and c, for a c that is not Unnamed, are both
      kept. */
  lemma StoreAndKeptHeaders(c: string)
    requires !IsUnnamed(c)
    ensures KeptColumns(["tienda", c]) == [0, 1]
  {
    StoreHeaderPlain();
    assert ["tienda", c][..1] == ["tienda"];
    assert KeptColumns(["tienda"]) == [0] by {
      assert ["tienda"][..0] == [];
    }
  }


  /** Cleaning a table headed "tienda" and one other header that is kept and
      has no blank at its ends keeps both headers and normalises only the
      store cells. */
  lemma CleanedStoreAndPlainColumn(t: Table, i: nat)
    requires Wf(t) && |t.columns| == 2 && t.columns[0] == "tienda" && i < |t.rows|
    requires t.columns[1] != "tienda" && !IsUnnamed(t.columns[1]) && Trimmed(t.columns[1])
    ensures Cleaned(t).Ok? && Cleaned(t).value.columns == t.columns
    ensures Cleaned(t).value.rows[i] == [NormalizeStore(t.rows[i][0]), t.rows[i][1]]
  {
    StripTrimmed(t.columns[1]);
    CleanedStoreAndOneColumn(t);
    CleanedPlainHeaders(t);
    CleanedStoreRow(t, i);
  }

  /** Such a table keeps both columns under their own headers. */
  lemma CleanedPlainHeaders(t: Table)
    requires Wf(t) && |t.columns| == 2 && t.columns[0] == "tienda" && !IsEmpty(t)
    requires !IsUnnamed(t.columns[1]) && Trimmed(t.columns[1]) && Cleaned(t).Ok?
    ensures KeptColumns(t.columns) == [0, 1] && Cleaned(t).value.columns == t.columns
  {
    var c := t.columns[1];
    StripTrimmed(c);
    var idx := CleanedLayout(t);
    assert idx == [0, 1] by {
      assert t.columns == ["tienda", c];
      StoreAndKeptHeaders(c);
    }
    StripTrimmed("tienda");
  }

  /** ... and normalises the store cell of every row, leaving the other. */
  lemma CleanedStoreRow(t: Table, i: nat)
    requires Wf(t) && |t.columns| == 2 && t.columns[0] == "tienda" && t.columns[1] != "tienda" && i < |t.rows|
    requires Cleaned(t).Ok? && KeptColumns(t.columns) == [0, 1] && Cleaned(t).value.columns == t.columns
    ensures Cleaned(t).value.rows[i] == [NormalizeStore(t.rows[i][0]), t.rows[i][1]]
  {
    var idx := CleanedLayout(t);
    var r := Cleaned(t).value;
    assert r.rows[i][0] == NormalizeStore(t.rows[i][0]);
    assert r.rows[i][1] == t.rows[i][1];
  }

  /** The kept table has, in every row, the store cell and the chosen cell. */
  lemma KeepOneColumnRow(t: Table, storeCol: string, c: string, asLink: Option<string>, i: nat)
    requires Wf(t) && storeCol in t.columns && c in t.columns && i < |t.rows|
    ensures KeepColumns(t, storeCol, [c], asLink).rows[i] ==
      [Get(t.columns, t.rows[i], storeCol), Get(t.columns, t.rows[i], c)]
  {
  }

  /** "link" is the one link column of a table headed "tienda" and "link". */
  lemma StoreLinkAggregationColumns()
    ensures AggregationColumns(["tienda", "link"]) == ["link"]
  {
    assert IsLinkName("link");
    StoreHeaderPlain();
    assert ["tienda", "link"][..1] == ["tienda"];
    assert ["tienda"][..0] == [];
    assert DetectLinkColumns(["tienda"]) == [];
  }

  /** In a table headed "tienda" and "link", the stripped non-blank link of a
      row is among the aggregated links of that row's store. */
  lemma AggregatedStoreLinkRow(t: Table, i: nat, v: string) returns (g: nat)
    requires Wf(t) && t.columns == ["tienda", "link"] && i < |t.rows|
    requires t.rows[i][1] == Some(v) && Strip(v) != ""
    ensures g < |Aggregated(t)| && Aggregated(t)[g].store == t.rows[i][0]
    ensures Strip(v) in Aggregated(t)[g].links
  {
    assert StoreCells(t)[i] == t.rows[i][0];
    StoreLinkAggregationColumns();
    assert Strip(v) in RowValues(t.columns, t.rows[i], ["link"]) by {
      assert Get(t.columns, t.rows[i], "link") == Some(v);
      assert ["link"][..0] == [];
    }
    AggregatedStores(t);
    assert t.rows[i][0] in StoresIn(Aggregated(t));
    g :| 0 <= g < |Aggregated(t)| && Aggregated(t)[g].store == t.rows[i][0];
    AggregatedLinks(t, g, Strip(v));
  }

  /** The corrected build_links: a non-blank value of the chosen URL column
      ends up, stripped, among the links of the (normalised) store of its
      row. */
  lemma BuildLinksUsesChosenColumn(t: Table, storeCol: string, c: string, i: nat, v: string) returns (g: nat)
    requires Wf(t) && storeCol in t.columns && c in t.columns && c != "" && c != storeCol
    requires i < |t.rows| && Get(t.columns, t.rows[i], c) == Some(v) && Strip(v) != ""
    ensures BuildLinks(t, storeCol, [], Some(c)).Ok?
    ensures g < |BuildLinks(t, storeCol, [], Some(c)).value|
    ensures BuildLinks(t, storeCol, [], Some(c)).value[g].store == NormalizeStore(Get(t.columns, t.rows[i], storeCol))
    ensures Strip(v) in BuildLinks(t, storeCol, [], Some(c)).value[g].links
  {
    var temp := KeepColumns(t, storeCol, [c], Some(c));
    KeepOneColumnNames(t, storeCol, c, Some(c));
    KeepOneColumnRow(t, storeCol, c, Some(c), i);
    assert !IsUnnamed("link") by {
      assert |"link"| < |"unnamed"|;
    }
    CleanedStoreAndPlainColumn(temp, i);
    BuildLinksOfChosenColumn(t, storeCol, c);
    g := AggregatedStoreLinkRow(Cleaned(temp).value, i, v);
  }

  /** With a chosen column and no link columns, build_links aggregates the
      cleaned table of the store column and the chosen one renamed "link". */
  lemma BuildLinksOfChosenColumn(t: Table, storeCol: string, c: string)
    requires Wf(t) && storeCol in t.columns && c in t.columns && c != ""
    requires Cleaned(KeepColumns(t, storeCol, [c], Some(c))).Ok?
    ensures "tienda" in Cleaned(KeepColumns(t, storeCol, [c], Some(c))).value.columns
    ensures BuildLinks(t, storeCol, [], Some(c)) == Ok(Aggregated(Cleaned(KeepColumns(t, storeCol, [c], Some(c))).value))
  {
    CleanedKeepsStoreColumn(KeepColumns(t, storeCol, [c], Some(c)));
  }

  /** The table of the build_links example. */
  function ExampleTable(): Table {
    Table(["tienda", "url"], [[Some("S"), Some("http://a")]])
  }

  /** Whenever the chosen URL column, whose header does not start with
      "link", has a non-blank value in some row, build_links as written and
      as intended differ: as written every store gets no link, corrected the
      row's store gets that value. */
  lemma BuildLinksChosenColumnDiffers(t: Table, storeCol: string, c: string, i: nat, v: string)
    requires Wf(t) && storeCol in t.columns && c in t.columns && c != "" && c != storeCol
    requires !IsLinkName(c) && !IsLinkName(Strip(c)) && Strip(c) != "tienda"
    requires i < |t.rows| && Get(t.columns, t.rows[i], c) == Some(v) && Strip(v) != ""
    ensures BuildLinksAsWritten(t, storeCol, [], Some(c)).Ok? && BuildLinks(t, storeCol, [], Some(c)).Ok?
    ensures forall e :: e in BuildLinksAsWritten(t, storeCol, [], Some(c)).value ==> e.links == []
    ensures exists e :: e in BuildLinks(t, storeCol, [], Some(c)).value && Strip(v) in e.links
    ensures BuildLinks(t, storeCol, [], Some(c)) != BuildLinksAsWritten(t, storeCol, [], Some(c))
  {
    BuildLinksAsWrittenIgnoresChosenColumn(t, storeCol, c);
    var g := BuildLinksUsesChosenColumn(t, storeCol, c, i, v);
    var corrected := BuildLinks(t, storeCol, [], Some(c)).value;
    assert corrected[g] in corrected;
  }

  /** The table with headers "tienda" and "url" and the one row ("S",
      "http://a") meets those conditions. */
  lemma BuildLinksChosenColumnExample(t: Table)
    requires t == ExampleTable()
    ensures BuildLinks(t, "tienda", [], Some("url")) != BuildLinksAsWritten(t, "tienda", [], Some("url"))
  {
    assert !IsLinkName("url") by {
      assert !MatchesIgnoreCase("url"[0], "link"[0]);
    }
    StripTrimmed("url");
    assert Get(t.columns, t.rows[0], "url") == Some("http://a");
    StripTrimmed("http://a");
    BuildLinksChosenColumnDiffers(t, "tienda", "url", 0, "http://a");
  }

  // ------------------------------------------------------------- workbook

  /** Excel's limit on sheet names: str(name)[:31]. */
  function SheetName(name: string): (r: string)
    ensures |r| == if |name| < 31 then |name| else 31
    ensures r <= name
  {
    if |name| <= 31 then name else name[..31]
  }

  /** Truncating a truncated name changes nothing, and names of at most 31
      characters are kept whole. */
  lemma SheetNameIdempotent(name: string)
    ensures SheetName(SheetName(name)) == SheetName(name)
    ensures |name| <= 31 ==> SheetName(name) == name
  {
  }
}
