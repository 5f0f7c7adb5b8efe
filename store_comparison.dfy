/**
 The comparison of the stores of two files in the web app (app_links.py):
 the store column of each file is taken on its own, renamed "tienda" and
 cleaned; the stores found in both files, only in the first and only in the
 second are listed in ascending order; and for the stores found in both, the
 links of each side are shown next to each other.
 */
module StoreComparison {
  import opened Wrappers
  import opened Text
  import opened Sequences
  import opened Ordering
  import opened Tables
  import opened AppLinks

  // ----------------------------------------------------------- store sets

  /** df[[storeCol]].rename(columns={storeCol: "tienda"}): the chosen column
      alone, under the name "tienda". */
  function StoreColumnTable(t: Table, storeCol: string): (r: Table)
    requires Wf(t) && storeCol in t.columns
    ensures Wf(r) && r.columns == ["tienda"] && |r.rows| == |t.rows|
  {
    Table(["tienda"], seq(|t.rows|, i requires 0 <= i < |t.rows| => [Get(t.columns, t.rows[i], storeCol)]))
  }

  /** The values of A["tienda"] once the one-column table is cleaned: the
      elements of set(A["tienda"]), with repeats. */
  function StoreValues(t: Table, storeCol: string): seq<string>
    requires Wf(t) && storeCol in t.columns
  {
    match Cleaned(StoreColumnTable(t, storeCol))
    case Err(_) => []
    case Ok(c) => seq(|c.rows|, i requires 0 <= i < |c.rows| => AsText(Get(c.columns, c.rows[i], "tienda")))
  }

  /** Cleaning keeps the one header "tienda" as it is. */
  lemma StoreColumnKept()
    ensures KeptColumns(["tienda"]) == [0] && CleanHeaders(["tienda"]) == ["tienda"]
  {
    StoreHeaderPlain();
    assert ["tienda"][..0] == [];
    StripTrimmed("tienda");
    assert StrippedAt(["tienda"], [0]) == ["tienda"];
  }

  /** Cleaning a non-empty one-column "tienda" table cannot fail: it
      normalises every cell. */
  lemma CleanedStoreColumn(u: Table)
    requires Wf(u) && u.columns == ["tienda"] && |u.rows| != 0
    ensures Cleaned(u) == Ok(Table(["tienda"], NormalizeColumn(u.rows, 0)))
  {
    StoreColumnKept();
    var rows := ProjectRows(u.rows, [0], 1);
    forall i | 0 <= i < |rows| ensures rows[i] == u.rows[i] {
      assert Project(u.rows[i], [0]) == [u.rows[i][0]];
    }
    assert rows == u.rows;
    assert multiset(u.columns)["tienda"] == 1;
    assert ColumnIndex(u.columns, "tienda") == Some(0);
  }

  /** The stores of a file are its store cells, read as text and normalised,
      row by row. */
  lemma StoreValuesNormalized(t: Table, storeCol: string)
    requires Wf(t) && storeCol in t.columns
    ensures |StoreValues(t, storeCol)| == |t.rows|
    ensures forall i :: 0 <= i < |t.rows| ==>
      StoreValues(t, storeCol)[i] == NormalizeSpaces(AsText(Get(t.columns, t.rows[i], storeCol)))
  {
    var single := StoreColumnTable(t, storeCol);
    if |t.rows| != 0 {
      CleanedStoreColumn(single);
      var c := Table(["tienda"], NormalizeColumn(single.rows, 0));
      var vals := seq(|c.rows|, i requires 0 <= i < |c.rows| => AsText(Get(c.columns, c.rows[i], "tienda")));
      assert StoreValues(t, storeCol) == vals;
      forall i | 0 <= i < |t.rows|
        ensures vals[i] == NormalizeSpaces(AsText(Get(t.columns, t.rows[i], storeCol)))
      {
        var cell := Get(t.columns, t.rows[i], storeCol);
        assert single.rows[i][0] == cell;
        assert c.rows[i][0] == NormalizeStore(cell);
        assert Get(c.columns, c.rows[i], "tienda") == c.rows[i][0];
      }
    }
  }

  // --------------------------------------------------- sorted set algebra

  /** sorted(set(s)). */
  function SortedSet(s: seq<string>): seq<string> {
    Sort(Distinct(s), StrLt)
  }

  /** sorted(set(s)) is strictly ascending, holds exactly the elements of s,
      and is the only strictly ascending sequence that does. */
  lemma SortedSetSpec(s: seq<string>)
    ensures StrictlySorted(SortedSet(s), StrLt) && NoDup(SortedSet(s))
    ensures forall x :: x in SortedSet(s) <==> x in s
    ensures forall r :: StrictlySorted(r, StrLt) && (forall x :: x in r <==> x in s) ==> r == SortedSet(s)
  {
    StrLtIsStrictTotalOrder();
    SortOfDistinctIsStrict(Distinct(s), StrLt);
    forall r | StrictlySorted(r, StrLt) && (forall x :: x in r <==> x in s) ensures r == SortedSet(s) {
      StrictlySortedUnique(r, SortedSet(s), StrLt);
    }
  }

  /** The elements of a, in order, that are in b (keep) or not in b (!keep). */
  function Select(a: seq<string>, b: seq<string>, keep: bool): (r: seq<string>)
    ensures forall x :: x in r <==> x in a && (x in b <==> keep)
  {
    if a == [] then []
    else
      var n := |a| - 1;
      var r := Select(a[..n], b, keep);
      assert a == a[..n] + [a[n]];
      if (a[n] in b) == keep then r + [a[n]] else r
  }

  /** coinc = sorted(tiendas_A & tiendas_B). */
  function Common(a: seq<string>, b: seq<string>): seq<string> {
    SortedSet(Select(a, b, true))
  }

  /** solo_A = sorted(tiendas_A - tiendas_B); solo_B is OnlyIn(b, a). */
  function OnlyIn(a: seq<string>, b: seq<string>): seq<string> {
    SortedSet(Select(a, b, false))
  }

  /** The three lists are strictly ascending; they hold the stores in both
      files, only in the first and only in the second; they are pairwise
      disjoint and together hold every store of either file. */
  lemma ComparisonSpec(a: seq<string>, b: seq<string>)
    ensures StrictlySorted(Common(a, b), StrLt) && StrictlySorted(OnlyIn(a, b), StrLt) && StrictlySorted(OnlyIn(b, a), StrLt)
    ensures forall x :: x in Common(a, b) <==> x in a && x in b
    ensures forall x :: x in OnlyIn(a, b) <==> x in a && x !in b
    ensures forall x :: x in OnlyIn(b, a) <==> x in b && x !in a
    ensures forall x :: !(x in Common(a, b) && x in OnlyIn(a, b))
    ensures forall x :: !(x in Common(a, b) && x in OnlyIn(b, a))
    ensures forall x :: !(x in OnlyIn(a, b) && x in OnlyIn(b, a))
    ensures forall x :: x in Common(a, b) || x in OnlyIn(a, b) || x in OnlyIn(b, a) <==> x in a || x in b
  {
    SortedSetSpec(Select(a, b, true));
    SortedSetSpec(Select(a, b, false));
    SortedSetSpec(Select(b, a, false));
  }

  /** The common stores do not depend on which file is called A. */
  lemma CommonSymmetric(a: seq<string>, b: seq<string>)
    ensures Common(a, b) == Common(b, a)
  {
    SortedSetSpec(Select(a, b, true));
    SortedSetSpec(Select(b, a, true));
    StrLtIsStrictTotalOrder();
    StrictlySortedUnique(Common(a, b), Common(b, a), StrLt);
  }

  // ------------------------------------------------------- side by side

  /** One row of the side-by-side table of the stores found in both files. */
  datatype SideBySideRow = SideBySideRow(store: string, linksA: string, linksB: string)

  /** The links of store s in an aggregated table, joined with newlines; ""
      when the store has no row there (the merge leaves NaN). */
  function JoinedLinks(agg: seq<StoreLinks>, s: string): string {
    if agg == [] then ""
    else if agg[0].store == Some(s) then Join(agg[0].links, "\n")
    else JoinedLinks(agg[1..], s)
  }

  /** With one row per store, the joined links of s are those of its row,
      and "" when s has none. */
  lemma {:induction false} JoinedLinksOfRow(agg: seq<StoreLinks>, s: string, g: nat)
    requires NoDup(StoresIn(agg)) && g < |agg| && agg[g].store == Some(s)
    ensures JoinedLinks(agg, s) == Join(agg[g].links, "\n")
  {
    if g != 0 {
      assert StoresIn(agg)[0] != StoresIn(agg)[g];
      assert StoresIn(agg[1..]) == StoresIn(agg)[1..];
      JoinedLinksOfRow(agg[1..], s, g - 1);
    }
  }

  /** A store without a row gets "". */
  lemma {:induction false} JoinedLinksMissing(agg: seq<StoreLinks>, s: string)
    requires forall g :: 0 <= g < |agg| ==> agg[g].store != Some(s)
    ensures JoinedLinks(agg, s) == ""
  {
    if agg != [] {
      assert agg[0].store != Some(s);
      JoinedLinksMissing(agg[1..], s);
    }
  }

  /** ambos: the common stores in order, each with the joined links of A and
      of B. */
  function SideBySide(common: seq<string>, a: seq<StoreLinks>, b: seq<StoreLinks>): (r: seq<SideBySideRow>)
    ensures |r| == |common| && forall i :: 0 <= i < |r| ==> r[i].store == common[i]
  {
    seq(|common|, i requires 0 <= i < |common| =>
      SideBySideRow(common[i], JoinedLinks(a, common[i]), JoinedLinks(b, common[i])))
  }

  /** A store with rows gets the links of its first row, joined with
      newlines. When the store has a single row, as in an aggregated table,
      that is the row the merge pairs it with. */
  lemma {:induction false} JoinedLinksFirstRow(agg: seq<StoreLinks>, s: string) returns (g: nat)
    requires exists g :: 0 <= g < |agg| && agg[g].store == Some(s)
    ensures g < |agg| && agg[g].store == Some(s)
    ensures forall h :: 0 <= h < g ==> agg[h].store != Some(s)
    ensures JoinedLinks(agg, s) == Join(agg[g].links, "\n")
  {
    if agg[0].store == Some(s) {
      g := 0;
    } else {
      var h :| 0 <= h < |agg| && agg[h].store == Some(s);
      assert agg[1..][h - 1].store == Some(s);
      var g' := JoinedLinksFirstRow(agg[1..], s);
      g := g' + 1;
      assert forall h :: 1 <= h < g ==> agg[h] == agg[1..][h - 1];
    }
  }

  /** Every common store appears once, in order. Its links in A are those of
      its first row in A joined with newlines, or "" when A has no row for
      it; its links in B likewise. */
  lemma SideBySideLinks(common: seq<string>, a: seq<StoreLinks>, b: seq<StoreLinks>, i: nat)
    requires i < |common|
    ensures (exists g :: 0 <= g < |a| && a[g].store == Some(common[i])) ==>
      exists g :: 0 <= g < |a| && a[g].store == Some(common[i])
        && (forall h :: 0 <= h < g ==> a[h].store != Some(common[i]))
        && SideBySide(common, a, b)[i].linksA == Join(a[g].links, "\n")
    ensures (forall g :: 0 <= g < |a| ==> a[g].store != Some(common[i])) ==> SideBySide(common, a, b)[i].linksA == ""
    ensures (exists g :: 0 <= g < |b| && b[g].store == Some(common[i])) ==>
      exists g :: 0 <= g < |b| && b[g].store == Some(common[i])
        && (forall h :: 0 <= h < g ==> b[h].store != Some(common[i]))
        && SideBySide(common, a, b)[i].linksB == Join(b[g].links, "\n")
    ensures (forall g :: 0 <= g < |b| ==> b[g].store != Some(common[i])) ==> SideBySide(common, a, b)[i].linksB == ""
  {
    var s := common[i];
    if exists g :: 0 <= g < |a| && a[g].store == Some(s) {
      var g := JoinedLinksFirstRow(a, s);
    } else {
      JoinedLinksMissing(a, s);
    }
    if exists g :: 0 <= g < |b| && b[g].store == Some(s) {
      var g := JoinedLinksFirstRow(b, s);
    } else {
      JoinedLinksMissing(b, s);
    }
  }
}
