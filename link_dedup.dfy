/**
 The stand-alone deduplication script (dedup_por_tienda.py): it picks the
 column that holds the links, checks that the table has a "tienda" column,
 cleans the (store, link) pairs, and produces the unique pairs, the per-store
 summary, an overall summary and one link per store.
 */
module LinkDedup {
  import opened Wrappers
  import opened Text
  import opened Sequences
  import opened Ordering
  import opened Tables
  import opened LinkPairs

  /** The name the store column must have. */
  const StoreColumn := "tienda"

  // ------------------------------------------------- link column detection

  /** Some value of column j, read as text, contains a match of the pattern
      https?:// with case ignored. */
  predicate ColumnHasUrls(t: Table, j: nat)
    requires Wf(t) && j < |t.columns|
  {
    ColumnMentions(t, j, "http://") || ColumnMentions(t, j, "https://")
  }

  /** The position of the first true flag from position k on: the loop
      with early return over the candidates. */
  function FirstTrue(flags: seq<bool>, k: nat): (r: Option<nat>)
    requires k <= |flags|
    ensures r.Some? ==>
      && k <= r.value < |flags| && flags[r.value]
      && forall m :: k <= m < r.value ==> !flags[m]
    ensures r.None? ==> forall m :: k <= m < |flags| ==> !flags[m]
    decreases |flags| - k
  {
    if k == |flags| then None
    else if flags[k] then Some(k)
    else FirstTrue(flags, k + 1)
  }

  /** For each name of prefer, whether it is a column. */
  function PreferredPresent(prefer: seq<string>, columns: seq<string>): (r: seq<bool>)
    ensures |r| == |prefer| && forall k :: 0 <= k < |r| ==> (r[k] <==> prefer[k] in columns)
  {
    seq(|prefer|, k requires 0 <= k < |prefer| => prefer[k] in columns)
  }

  /** For each column, whether its values mention a URL. */
  function UrlColumns(t: Table): (r: seq<bool>)
    requires Wf(t)
    ensures |r| == |t.columns| && forall j :: 0 <= j < |r| ==> (r[j] <==> ColumnHasUrls(t, j))
  {
    seq(|t.columns|, j requires 0 <= j < |t.columns| => ColumnHasUrls(t, j))
  }

  /** Why the script stops: no column holds links, or there is no store
      column (the message lists the columns that exist). */
  datatype DedupError = NoLinkColumn | MissingStoreColumn(columns: seq<string>)

  /** autodetect_link_column: the first preferred name that is a column, else
      the first column that mentions a URL, else an error. */
  function AutodetectLinkColumn(t: Table, prefer: seq<string>): (r: Result<string, DedupError>)
    requires Wf(t)
    ensures r.Ok? ==> r.value in t.columns
    ensures r.Err? ==> r.error == NoLinkColumn
  {
    match FirstTrue(PreferredPresent(prefer, t.columns), 0)
    case Some(k) => Ok(prefer[k])
    case None =>
      match FirstTrue(UrlColumns(t), 0)
      case Some(j) => Ok(t.columns[j])
      case None => Err(NoLinkColumn)
  }

  /** A preferred name that is a column wins: the first such one in the order
      of prefer. */
  lemma AutodetectPreferred(t: Table, prefer: seq<string>) returns (k: nat)
    requires Wf(t) && exists k :: 0 <= k < |prefer| && prefer[k] in t.columns
    ensures k < |prefer| && prefer[k] in t.columns
    ensures forall m :: 0 <= m < k ==> prefer[m] !in t.columns
    ensures AutodetectLinkColumn(t, prefer) == Ok(prefer[k])
  {
    k := FirstTrue(PreferredPresent(prefer, t.columns), 0).value;
  }

  /** Without a preferred name among the columns, the first column, in table
      order, whose values mention a URL is chosen. */
  lemma AutodetectByContent(t: Table, prefer: seq<string>) returns (j: nat)
    requires Wf(t) && forall k :: 0 <= k < |prefer| ==> prefer[k] !in t.columns
    requires exists j :: 0 <= j < |t.columns| && ColumnHasUrls(t, j)
    ensures j < |t.columns| && ColumnHasUrls(t, j)
    ensures forall m :: 0 <= m < j ==> !ColumnHasUrls(t, m)
    ensures AutodetectLinkColumn(t, prefer) == Ok(t.columns[j])
  {
    j := FirstTrue(UrlColumns(t), 0).value;
  }

  /** Detection fails exactly when no preferred name is a column and no
      column mentions a URL. */
  lemma AutodetectFails(t: Table, prefer: seq<string>)
    requires Wf(t)
    ensures AutodetectLinkColumn(t, prefer).Err? <==>
      (forall k :: 0 <= k < |prefer| ==> prefer[k] !in t.columns)
      && (forall j :: 0 <= j < |t.columns| ==> !ColumnHasUrls(t, j))
  {
    if AutodetectLinkColumn(t, prefer).Ok? {
      var r := FirstTrue(PreferredPresent(prefer, t.columns), 0);
      if r.Some? {
        assert prefer[r.value] in t.columns;
      } else {
        assert ColumnHasUrls(t, FirstTrue(UrlColumns(t), 0).value);
      }
    }
  }

  // -------------------------------------------------------------- the run

  /** The summary sheet. The average number of links per store is
      linkTotal / stores, rounded, or 0 without stores; the model keeps its
      two integer terms. */
  datatype Summary = Summary(
    originalRows: nat, uniquePairs: nat, stores: nat, linkTotal: nat,
    linkColumn: string, storeColumn: string)

  /** The four sheets the script writes. */
  datatype DedupOutput = DedupOutput(
    pairs: seq<Pair>, perStore: seq<StoreSummary>, summary: Summary, onePerStore: seq<Pair>)

  /** The (store, link) cells of every row, read from the "tienda" column and
      the link column. */
  function BaseCells(t: Table, linkCol: string): seq<(Cell, Cell)>
    requires Wf(t) && StoreColumn in t.columns && linkCol in t.columns
  {
    SelectPairs(t, ColumnIndex(t.columns, StoreColumn).value, ColumnIndex(t.columns, linkCol).value)
  }

  /** The outputs computed from the cleaned pairs. */
  function Outputs(t: Table, linkCol: string, base: seq<Pair>): DedupOutput {
    var u := UniquePairs(base);
    var per := Summaries(u);
    DedupOutput(u, per, Summary(|t.rows|, |u|, |per|, TotalCount(per), linkCol, StoreColumn), OnePerStore(u))
  }

  /** What main computes, or the error it stops with. */
  function Dedup(t: Table, prefer: seq<string>): Result<DedupOutput, DedupError>
    requires Wf(t)
  {
    match AutodetectLinkColumn(t, prefer)
    case Err(e) => Err(e)
    case Ok(linkCol) =>
      if StoreColumn !in t.columns then Err(MissingStoreColumn(t.columns))
      else Ok(Outputs(t, linkCol, CleanPairs(BaseCells(t, linkCol))))
  }

  /** main: detect the link column, check the store column, then clean the
      base table step by step and derive the sheets from it. */
  method RunDedup(t: Table, prefer: seq<string>) returns (r: Result<DedupOutput, DedupError>)
    requires Wf(t)
    ensures r == Dedup(t, prefer)
  {
    var linkCol := AutodetectLinkColumn(t, prefer);
    if linkCol.Err? {
      return Err(linkCol.error);
    }
    if StoreColumn !in t.columns {
      return Err(MissingStoreColumn(t.columns));
    }
    var base := CleanBase(BaseCells(t, linkCol.value));
    r := Ok(Outputs(t, linkCol.value, base));
  }

  /** The link column is looked for first, so a table with neither links nor
      a store column fails for the links; the store column is checked next,
      and the error lists the columns. */
  lemma DedupErrors(t: Table, prefer: seq<string>)
    requires Wf(t)
    ensures Dedup(t, prefer) == Err(NoLinkColumn) <==> AutodetectLinkColumn(t, prefer).Err?
    ensures Dedup(t, prefer) == Err(MissingStoreColumn(t.columns)) <==>
      AutodetectLinkColumn(t, prefer).Ok? && StoreColumn !in t.columns
    ensures Dedup(t, prefer).Ok? <==> AutodetectLinkColumn(t, prefer).Ok? && StoreColumn in t.columns
  {
  }

  /** The cell of the store column in row i. */
  function StoreCell(t: Table, i: nat): Cell
    requires Wf(t) && i < |t.rows|
  {
    Get(t.columns, t.rows[i], StoreColumn)
  }

  /** A row gives the pair of its stripped store and link when both cells are
      present and the stripped link is not empty; a blank store stays. */
  predicate RowGives(t: Table, linkCol: string, i: nat, p: Pair)
    requires Wf(t) && i < |t.rows|
  {
    var s := StoreCell(t, i);
    var l := Get(t.columns, t.rows[i], linkCol);
    s.Some? && l.Some? && Strip(l.value) != "" && p == (Strip(s.value), Strip(l.value))
  }

  /** Every cleaned pair comes from a row, and every usable row gives one. */
  lemma CleanedBase(t: Table, linkCol: string, p: Pair)
    requires Wf(t) && StoreColumn in t.columns && linkCol in t.columns
    ensures p in CleanPairs(BaseCells(t, linkCol)) <==> exists i :: 0 <= i < |t.rows| && RowGives(t, linkCol, i, p)
  {
    var raw := BaseCells(t, linkCol);
    if p in CleanPairs(raw) {
      CleanPairsFromKeptRows(raw, p);
      var i :| 0 <= i < |raw| && Kept(raw[i]) && p == Stripped(raw[i]);
      assert RowGives(t, linkCol, i, p);
    }
    if exists i :: 0 <= i < |t.rows| && RowGives(t, linkCol, i, p) {
      var i :| 0 <= i < |t.rows| && RowGives(t, linkCol, i, p);
      assert Kept(raw[i]) && p == Stripped(raw[i]);
      KeptRowsAreCleaned(raw, i);
    }
  }

  /** pares_unicos: every pair of a usable row once, trimmed, with a
      non-empty link, in strictly ascending (store, link) order; deduplicating
      and sorting it again changes nothing. */
  lemma DedupPairs(t: Table, prefer: seq<string>)
    requires Wf(t) && Dedup(t, prefer).Ok?
    ensures var u := Dedup(t, prefer).value.pairs;
      && StrictlySorted(u, PairLt) && NoDup(u) && UniquePairs(u) == u
      && (forall p :: p in u ==> Trimmed(p.0) && Trimmed(p.1) && p.1 != "")
      && forall p :: p in u <==> exists i :: 0 <= i < |t.rows| && RowGives(t, Dedup(t, prefer).value.summary.linkColumn, i, p)
  {
    var linkCol := AutodetectLinkColumn(t, prefer).value;
    var base := CleanPairs(BaseCells(t, linkCol));
    UniquePairsSpec(base);
    UniquePairsFixedPoint(base);
    UniqueCleanPairsTrimmed(BaseCells(t, linkCol));
    forall p ensures p in UniquePairs(base) <==> exists i :: 0 <= i < |t.rows| && RowGives(t, linkCol, i, p) {
      CleanedBase(t, linkCol, p);
    }
  }

  /** links_por_tienda: one row per store of the unique pairs, in strictly
      ascending store order. */
  lemma DedupStores(t: Table, prefer: seq<string>)
    requires Wf(t) && Dedup(t, prefer).Ok?
    ensures var out := Dedup(t, prefer).value;
      && |out.perStore| == |Stores(out.pairs)|
      && (forall i :: 0 <= i < |out.perStore| ==> out.perStore[i].store == Stores(out.pairs)[i])
      && StrictlySorted(Stores(out.pairs), StrLt)
      && forall s :: s in Stores(out.pairs) <==> exists l :: (s, l) in out.pairs
  {
    StoresSpec(Dedup(t, prefer).value.pairs);
  }

  /** Each row of links_por_tienda counts the distinct links of its store and
      joins exactly those links, ascending, with newlines. */
  lemma DedupPerStore(t: Table, prefer: seq<string>, i: nat) returns (links: seq<string>)
    requires Wf(t) && Dedup(t, prefer).Ok? && i < |Dedup(t, prefer).value.perStore|
    ensures var out := Dedup(t, prefer).value;
      && StrictlySorted(links, StrLt)
      && (forall l :: l in links <==> (out.perStore[i].store, l) in out.pairs)
      && out.perStore[i].count == |links| > 0
      && out.perStore[i].joined == Join(links, "\n")
  {
    var u := Dedup(t, prefer).value.pairs;
    DedupPairs(t, prefer);
    SummariesSpec(u, i);
    GroupsSpec(u, i);
    links := Groups(u)[i].1;
  }

  /** The summary: the number of rows read, of unique pairs and of stores;
      the counts add up to the number of unique pairs, and there are no stores
      exactly when there are no pairs (the average is then 0). */
  lemma DedupSummary(t: Table, prefer: seq<string>)
    requires Wf(t) && Dedup(t, prefer).Ok?
    ensures var out := Dedup(t, prefer).value;
      && out.summary.originalRows == |t.rows|
      && out.summary.uniquePairs == |out.pairs|
      && out.summary.stores == |out.perStore|
      && out.summary.linkTotal == TotalCount(out.perStore) == |out.pairs|
      && (out.summary.stores == 0 <==> out.pairs == [])
      && out.summary.linkColumn in t.columns
      && out.summary.storeColumn == StoreColumn
  {
    var out := Dedup(t, prefer).value;
    DedupPairs(t, prefer);
    SummaryTotal(out.pairs);
    StoresSpec(out.pairs);
    if out.pairs != [] {
      assert (out.pairs[0].0, out.pairs[0].1) in out.pairs;
      assert out.pairs[0].0 in Stores(out.pairs);
    }
  }

  /** uno_por_tienda: one row per store, in the order of links_por_tienda,
      carrying a link of that store that no other link of the store
      precedes. */
  lemma DedupOnePerStore(t: Table, prefer: seq<string>, i: nat, l: string)
    requires Wf(t) && Dedup(t, prefer).Ok? && i < |Dedup(t, prefer).value.onePerStore|
    ensures var out := Dedup(t, prefer).value;
      && |out.onePerStore| == |out.perStore|
      && out.onePerStore[i].0 == out.perStore[i].store
      && out.onePerStore[i] in out.pairs
      && ((out.onePerStore[i].0, l) in out.pairs ==> !StrLt(l, out.onePerStore[i].1))
  {
    var out := Dedup(t, prefer).value;
    OnePerStoreStores(out.pairs);
    OnePerStoreSmallest(out.pairs, i, l);
  }
}
