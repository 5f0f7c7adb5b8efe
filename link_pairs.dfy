/**
 The (tienda, link) pipeline that the first mode of the web app and the
 stand-alone deduplication script share: clean the chosen pair of columns,
 remove repeated pairs and sort them, then present them per store as lists,
 as a padded "wide" table, as counts with newline-joined text, or as one
 link per store.
 */
module LinkPairs {
  import opened Wrappers
  import opened Text
  import opened Sequences
  import opened Ordering
  import opened Tables

  /** A (tienda, link) pair. */
  type Pair = (string, string)

  /** df[[store, link]]: the two chosen cells of every row, in row order. */
  function SelectPairs(t: Table, store: nat, link: nat): seq<(Cell, Cell)>
    requires Wf(t) && store < |t.columns| && link < |t.columns|
  {
    seq(|t.rows|, i requires 0 <= i < |t.rows| => (t.rows[i][store], t.rows[i][link]))
  }

  // ---------------------------------------------------------------- cleaning

  /** dropna(): the rows whose store and link are both present. */
  function DropMissing(raw: seq<(Cell, Cell)>): (r: seq<Pair>)
    ensures forall i :: 0 <= i < |raw| && raw[i].0.Some? && raw[i].1.Some? ==>
      (raw[i].0.value, raw[i].1.value) in r
    ensures forall k :: 0 <= k < |r| ==>
      exists i :: 0 <= i < |raw| && raw[i] == (Some(r[k].0), Some(r[k].1))
  {
    if raw == [] then []
    else
      var p := raw[..|raw| - 1];
      var r := DropMissing(p);
      var c := raw[|raw| - 1];
      assert forall i :: 0 <= i < |p| ==> p[i] == raw[i];
      if c.0.Some? && c.1.Some? then r + [(c.0.value, c.1.value)] else r
  }

  /** str.strip() on the store and on the link of every pair. */
  function StripBoth(ps: seq<Pair>): seq<Pair> {
    seq(|ps|, i requires 0 <= i < |ps| => (Strip(ps[i].0), Strip(ps[i].1)))
  }

  /** base[base["link"] != ""]: drop the pairs whose link is empty. */
  function DropEmptyLinks(ps: seq<Pair>): (r: seq<Pair>)
    ensures forall i :: 0 <= i < |ps| && ps[i].1 != "" ==> ps[i] in r
    ensures forall p :: p in r ==> p in ps && p.1 != ""
  {
    if ps == [] then []
    else
      var p := ps[..|ps| - 1];
      var r := DropEmptyLinks(p);
      assert forall i :: 0 <= i < |p| ==> p[i] == ps[i];
      if ps[|ps| - 1].1 != "" then r + [ps[|ps| - 1]] else r
  }

  /** The three cleaning steps in the order the scripts apply them. */
  function CleanPairs(raw: seq<(Cell, Cell)>): seq<Pair> {
    DropEmptyLinks(StripBoth(DropMissing(raw)))
  }

  /** The rows cleaning keeps: store and link present, link not blank. */
  predicate Kept(c: (Cell, Cell)) {
    c.0.Some? && c.1.Some? && Strip(c.1.value) != ""
  }

  /** The pair a kept row becomes: both values stripped. */
  function Stripped(c: (Cell, Cell)): Pair {
    (Strip(AsText(c.0)), Strip(AsText(c.1)))
  }

  /** Every cleaned pair comes from a kept row. */
  lemma CleanPairsFromKeptRows(raw: seq<(Cell, Cell)>, p: Pair)
    requires p in CleanPairs(raw)
    ensures exists i :: 0 <= i < |raw| && Kept(raw[i]) && p == Stripped(raw[i])
  {
    var d := DropMissing(raw);
    var s := StripBoth(d);
    assert p in s;
    var k :| 0 <= k < |s| && s[k] == p;
    var i :| 0 <= i < |raw| && raw[i] == (Some(d[k].0), Some(d[k].1));
    assert Kept(raw[i]) && p == Stripped(raw[i]);
  }

  /** Every kept row yields a cleaned pair; a blank store is kept as "". */
  lemma KeptRowsAreCleaned(raw: seq<(Cell, Cell)>, i: nat)
    requires i < |raw| && Kept(raw[i])
    ensures Stripped(raw[i]) in CleanPairs(raw)
  {
    var d := DropMissing(raw);
    var s := StripBoth(d);
    assert (raw[i].0.value, raw[i].1.value) in d;
    var k :| 0 <= k < |d| && d[k] == (raw[i].0.value, raw[i].1.value);
    assert s[k] == Stripped(raw[i]);
  }

  /** After cleaning, both values of every pair are stripped and no link is "". */
  lemma CleanPairsTrimmed(raw: seq<(Cell, Cell)>)
    ensures forall p :: p in CleanPairs(raw) ==> Trimmed(p.0) && Trimmed(p.1) && p.1 != ""
  {
    var s := StripBoth(DropMissing(raw));
    forall p | p in CleanPairs(raw) ensures Trimmed(p.0) && Trimmed(p.1) && p.1 != "" {
      var k :| 0 <= k < |s| && s[k] == p;
    }
  }

  /** dropna() as a loop over the rows. */
  method DropMissingRows(raw: seq<(Cell, Cell)>) returns (base: seq<Pair>)
    ensures base == DropMissing(raw)
  {
    base := [];
    for i := 0 to |raw|
      invariant base == DropMissing(raw[..i])
    {
      assert raw[..i + 1][..i] == raw[..i];
      if raw[i].0.Some? && raw[i].1.Some? {
        base := base + [(raw[i].0.value, raw[i].1.value)];
      }
    }
    assert raw[..|raw|] == raw;
  }

  /** Overwrites both columns with their stripped values, row by row. */
  method StripColumns(base: seq<Pair>) returns (r: seq<Pair>)
    ensures r == StripBoth(base)
  {
    r := base;
    for i := 0 to |r|
      invariant |r| == |base|
      invariant forall k :: 0 <= k < i ==> r[k] == (Strip(base[k].0), Strip(base[k].1))
      invariant forall k :: i <= k < |r| ==> r[k] == base[k]
    {
      r := r[i := (Strip(r[i].0), Strip(r[i].1))];
    }
  }

  /** base[base["link"] != ""] as a loop over the rows. */
  method DropEmptyLinkRows(base: seq<Pair>) returns (r: seq<Pair>)
    ensures r == DropEmptyLinks(base)
  {
    r := [];
    for i := 0 to |base|
      invariant r == DropEmptyLinks(base[..i])
    {
      assert base[..i + 1][..i] == base[..i];
      if base[i].1 != "" {
        r := r + [base[i]];
      }
    }
    assert base[..|base|] == base;
  }

  /** The cleaning of the deduplication script: the base table is narrowed to
      complete rows, then its two columns are overwritten with their stripped
      values, then the rows with an empty link are dropped. */
  method CleanBase(raw: seq<(Cell, Cell)>) returns (base: seq<Pair>)
    ensures base == CleanPairs(raw)
  {
    base := DropMissingRows(raw);
    base := StripColumns(base);
    base := DropEmptyLinkRows(base);
  }

  // ----------------------------------------------------------- unique pairs

  /** drop_duplicates(subset=["tienda", "link"]).sort_values(["tienda", "link"]). */
  function UniquePairs(ps: seq<Pair>): seq<Pair> {
    Sort(Distinct(ps), PairLt)
  }

  /** The unique pairs hold every pair of the input once, in ascending
      (store, link) order. */
  lemma UniquePairsSpec(ps: seq<Pair>)
    ensures StrictlySorted(UniquePairs(ps), PairLt) && NoDup(UniquePairs(ps))
    ensures forall p :: p in UniquePairs(ps) <==> p in ps
  {
    PairLtIsStrictTotalOrder();
    SortOfDistinctIsStrict(Distinct(ps), PairLt);
  }

  /** Deduplicating and sorting the unique pairs again changes nothing. */
  lemma UniquePairsFixedPoint(ps: seq<Pair>)
    ensures UniquePairs(UniquePairs(ps)) == UniquePairs(ps)
  {
    var u := UniquePairs(ps);
    UniquePairsSpec(ps);
    UniquePairsSpec(u);
    PairLtIsStrictTotalOrder();
    StrictlySortedUnique(UniquePairs(u), u, PairLt);
  }

  /** The unique pairs of cleaned rows have stripped values and no empty link. */
  lemma UniqueCleanPairsTrimmed(raw: seq<(Cell, Cell)>)
    ensures forall p :: p in UniquePairs(CleanPairs(raw)) ==> Trimmed(p.0) && Trimmed(p.1) && p.1 != ""
  {
    UniquePairsSpec(CleanPairs(raw));
    CleanPairsTrimmed(raw);
  }

  // ---------------------------------------------------------------- groups

  /** The store of every pair, in order. */
  function StoresOf(ps: seq<Pair>): seq<string> {
    seq(|ps|, i requires 0 <= i < |ps| => ps[i].0)
  }

  /** The keys of groupby("tienda"): every store once, ascending. */
  function Stores(ps: seq<Pair>): seq<string> {
    Sort(Distinct(StoresOf(ps)), StrLt)
  }

  /** The stores are the distinct stores of the pairs, strictly ascending. */
  lemma StoresSpec(ps: seq<Pair>)
    ensures StrictlySorted(Stores(ps), StrLt) && NoDup(Stores(ps))
    ensures forall s :: s in Stores(ps) <==> exists l :: (s, l) in ps
  {
    StrLtIsStrictTotalOrder();
    SortOfDistinctIsStrict(Distinct(StoresOf(ps)), StrLt);
    forall s ensures s in Stores(ps) <==> exists l :: (s, l) in ps {
      if s in StoresOf(ps) {
        var i :| 0 <= i < |ps| && ps[i].0 == s;
        assert (s, ps[i].1) in ps;
      }
      if exists l :: (s, l) in ps {
        var l :| (s, l) in ps;
        var i :| 0 <= i < |ps| && ps[i] == (s, l);
        assert StoresOf(ps)[i] == s;
      }
    }
  }

  /** The links paired with store s, in the order of the pairs. */
  function LinksOf(ps: seq<Pair>, s: string): (r: seq<string>)
    ensures forall l :: l in r <==> (s, l) in ps
    ensures |r| <= |ps|
    ensures (forall k :: 0 <= k < |ps| ==> ps[k].0 != s) ==> r == []
  {
    if ps == [] then []
    else
      var p := ps[..|ps| - 1];
      var r := LinksOf(p, s);
      assert ps == p + [ps[|ps| - 1]];
      if ps[|ps| - 1].0 == s then r + [ps[|ps| - 1].1] else r
  }

  /** The links of one store keep the order of the pairs: sorted pairs give
      sorted links, and strictly sorted pairs give strictly sorted links. */
  lemma {:induction false} LinksOfSorted(ps: seq<Pair>, s: string)
    requires Sorted(ps, PairLt)
    ensures Sorted(LinksOf(ps, s), StrLt)
    ensures StrictlySorted(ps, PairLt) ==> StrictlySorted(LinksOf(ps, s), StrLt)
  {
    if ps != [] {
      var n := |ps| - 1;
      var p := ps[..n];
      var last := ps[n];
      assert Sorted(p, PairLt);
      assert StrictlySorted(ps, PairLt) ==> StrictlySorted(p, PairLt);
      LinksOfSorted(p, s);
      var q := LinksOf(p, s);
      if last.0 == s {
        forall k | 0 <= k < |q|
          ensures !StrLt(last.1, q[k])
          ensures StrictlySorted(ps, PairLt) ==> StrLt(q[k], last.1)
        {
          var i :| 0 <= i < |p| && p[i] == (s, q[k]);
          assert ps[i] == (s, q[k]);
        }
        assert LinksOf(ps, s) == q + [last.1];
        SortedSnoc(q, last.1, StrLt);
        if StrictlySorted(ps, PairLt) {
          StrictlySortedSnoc(q, last.1, StrLt);
        }
      } else {
        assert LinksOf(ps, s) == q;
      }
    }
  }

  /** Without repeated pairs, no store lists a link twice. */
  lemma {:induction false} LinksOfNoDup(ps: seq<Pair>, s: string)
    requires NoDup(ps)
    ensures NoDup(LinksOf(ps, s))
  {
    if ps != [] {
      var p := ps[..|ps| - 1];
      assert NoDup(p);
      LinksOfNoDup(p, s);
      assert ps[|ps| - 1] !in p;
    }
  }

  /** groupby("tienda")["link"].apply(list): each store with its links. */
  function Groups(ps: seq<Pair>): seq<(string, seq<string>)> {
    var ks := Stores(ps);
    seq(|ks|, i requires 0 <= i < |ks| => (ks[i], LinksOf(ps, ks[i])))
  }

  /** On the unique pairs, every group is non-empty and its links are exactly
      the store's links, strictly ascending. */
  lemma GroupsSpec(ps: seq<Pair>, i: nat)
    requires StrictlySorted(ps, PairLt) && i < |Groups(ps)|
    ensures Groups(ps)[i].1 != []
    ensures StrictlySorted(Groups(ps)[i].1, StrLt)
    ensures forall l :: l in Groups(ps)[i].1 <==> (Groups(ps)[i].0, l) in ps
  {
    var ks := Stores(ps);
    var s := ks[i];
    assert Groups(ps)[i] == (s, LinksOf(ps, s));
    StoresSpec(ps);
    assert s in ks;
    var l :| (s, l) in ps;
    assert l in LinksOf(ps, s);
    PairLtIsStrictTotalOrder();
    StrictlySortedIsSorted(ps, PairLt);
    LinksOfSorted(ps, s);
  }

  // -------------------------------------------------------------- wide view

  /** grupos["link"].str.len().max(), or 0 when there are no groups. */
  function MaxLinks(gs: seq<(string, seq<string>)>): (m: nat)
    ensures forall i :: 0 <= i < |gs| ==> |gs[i].1| <= m
    ensures gs != [] ==> exists i :: 0 <= i < |gs| && |gs[i].1| == m
    ensures gs == [] ==> m == 0
  {
    if gs == [] then 0
    else
      var p := gs[..|gs| - 1];
      var m := MaxLinks(p);
      var n := |gs[|gs| - 1].1|;
      assert forall i :: 0 <= i < |p| ==> p[i] == gs[i];
      if n > m then n else m
  }

  /** The decimal digits of n. */
  function NatToString(n: nat): string
    decreases n
  {
    var d := ['0' + (n % 10) as char];
    if n < 10 then d else NatToString(n / 10) + d
  }

  /** The header of the k-th link column (k counts from 1). */
  function LinkColumn(k: nat): string {
    "link_" + NatToString(k)
  }

  /** The m link cells of a store in the wide view: its k-th link, or "" once
      the store has no more links. */
  function PaddedRow(links: seq<string>, m: nat): seq<Cell> {
    seq(m, k requires 0 <= k < m => Some(if k < |links| then links[k] else ""))
  }

  /** The texts of a row that are not blank, in order. */
  function Unpad(cells: seq<Cell>): seq<string> {
    if cells == [] then []
    else
      var last := cells[|cells| - 1];
      Unpad(cells[..|cells| - 1]) + (if last.Some? && last.value != "" then [last.value] else [])
  }

  /** Padding loses nothing: when no link is "" (as after cleaning), dropping
      the blank cells of a padded row gives the links back. */
  lemma {:induction false} UnpadPaddedRow(links: seq<string>, m: nat)
    requires |links| <= m && forall k :: 0 <= k < |links| ==> links[k] != ""
    ensures Unpad(PaddedRow(links, m)) == links
  {
    if m > 0 {
      var row := PaddedRow(links, m);
      assert row[..m - 1] == PaddedRow(links[..if |links| < m then |links| else m - 1], m - 1);
      if |links| < m {
        UnpadPaddedRow(links, m - 1);
        assert row[..m - 1] == PaddedRow(links, m - 1);
      } else {
        UnpadPaddedRow(links[..m - 1], m - 1);
        assert links == links[..m - 1] + [links[m - 1]];
      }
    }
  }

  /** The wide view: a "tienda" column, then link_1 .. link_m where m is the
      size of the largest group, filled one column at a time. */
  method WideView(gs: seq<(string, seq<string>)>) returns (wide: Table)
    ensures Wf(wide)
    ensures |wide.columns| == MaxLinks(gs) + 1 && wide.columns[0] == "tienda"
    ensures forall k :: 1 <= k < |wide.columns| ==> wide.columns[k] == LinkColumn(k)
    ensures |wide.rows| == |gs|
    ensures forall g :: 0 <= g < |gs| ==>
      wide.rows[g] == [Some(gs[g].0)] + PaddedRow(gs[g].1, MaxLinks(gs))
  {
    var m := MaxLinks(gs);
    var columns := ["tienda"];
    var rows := seq(|gs|, g requires 0 <= g < |gs| => [Some(gs[g].0)]);
    for i := 0 to m
      invariant |columns| == i + 1 && columns[0] == "tienda"
      invariant forall k :: 1 <= k < |columns| ==> columns[k] == LinkColumn(k)
      invariant |rows| == |gs|
      invariant forall g :: 0 <= g < |gs| ==> rows[g] == [Some(gs[g].0)] + PaddedRow(gs[g].1, i)
    {
      columns := columns + [LinkColumn(i + 1)];
      rows := seq(|gs|, g requires 0 <= g < |gs| =>
        rows[g] + [Some(if i < |gs[g].1| then gs[g].1[i] else "")]);
    }
    wide := Table(columns, rows);
  }

  // ------------------------------------------------------- counts and text

  /** One row of the per-store summary: the number of distinct links and
      those links joined with newlines. */
  datatype StoreSummary = StoreSummary(store: string, count: nat, joined: string)

  /** groupby("tienda")["link"].agg(["nunique", "\n".join(unique)]), sorted by
      store. */
  function Summaries(ps: seq<Pair>): seq<StoreSummary> {
    var ks := Stores(ps);
    seq(|ks|, i requires 0 <= i < |ks| =>
      var ls := Distinct(LinksOf(ps, ks[i]));
      StoreSummary(ks[i], |ls|, Join(ls, "\n")))
  }

  /** On unique pairs, each summary counts the store's links and joins them
      in ascending order. */
  lemma SummariesSpec(ps: seq<Pair>, i: nat)
    requires StrictlySorted(ps, PairLt) && NoDup(ps) && i < |Summaries(ps)|
    ensures Summaries(ps)[i].store == Groups(ps)[i].0
    ensures Summaries(ps)[i].count == |Groups(ps)[i].1| > 0
    ensures Summaries(ps)[i].joined == Join(Groups(ps)[i].1, "\n")
  {
    var s := Stores(ps)[i];
    LinksOfNoDup(ps, s);
    DistinctOfNoDup(LinksOf(ps, s));
    GroupsSpec(ps, i);
  }

  /** The sum of the counts, the numerator of the average. */
  function TotalCount(ss: seq<StoreSummary>): nat {
    if ss == [] then 0 else TotalCount(ss[..|ss| - 1]) + ss[|ss| - 1].count
  }

  /** The number of pairs whose store is in ks. */
  function PairsIn(ps: seq<Pair>, ks: seq<string>): nat {
    if ks == [] then 0 else PairsIn(ps, ks[..|ks| - 1]) + |LinksOf(ps, ks[|ks| - 1])|
  }

  lemma {:induction false} PairsInStep(ps: seq<Pair>, ks: seq<string>)
    requires ps != []
    ensures PairsIn(ps, ks) == PairsIn(ps[..|ps| - 1], ks) + multiset(ks)[ps[|ps| - 1].0]
  {
    if ks != [] {
      PairsInStep(ps, ks[..|ks| - 1]);
      assert ks == ks[..|ks| - 1] + [ks[|ks| - 1]];
    }
  }

  lemma {:induction false} PairsInAll(ps: seq<Pair>, ks: seq<string>)
    requires NoDup(ks) && forall i :: 0 <= i < |ps| ==> ps[i].0 in ks
    ensures PairsIn(ps, ks) == |ps|
  {
    if ps == [] {
      PairsInNone(ks);
    } else {
      var p := ps[..|ps| - 1];
      PairsInAll(p, ks);
      PairsInStep(ps, ks);
      NoDupCountsOnce(ks);
      assert ps[|ps| - 1].0 in multiset(ks);
    }
  }

  lemma {:induction false} PairsInNone(ks: seq<string>)
    ensures PairsIn([], ks) == 0
  {
    if ks != [] {
      PairsInNone(ks[..|ks| - 1]);
    }
  }

  /** The counts of the summary add up to the number of unique pairs, so the
      average count is the number of pairs over the number of stores. */
  lemma SummaryTotal(ps: seq<Pair>)
    requires StrictlySorted(ps, PairLt) && NoDup(ps)
    ensures TotalCount(Summaries(ps)) == |ps|
  {
    var ks := Stores(ps);
    var ss := Summaries(ps);
    StoresSpec(ps);
    forall i | 0 <= i < |ps| ensures ps[i].0 in ks {
      assert (ps[i].0, ps[i].1) in ps;
    }
    PairsInAll(ps, ks);
    PrefixTotals(ps, |ks|);
    assert ss[..|ks|] == ss && ks[..|ks|] == ks;
  }

  lemma {:induction false} PrefixTotals(ps: seq<Pair>, m: nat)
    requires NoDup(ps) && m <= |Stores(ps)|
    ensures TotalCount(Summaries(ps)[..m]) == PairsIn(ps, Stores(ps)[..m])
  {
    if m > 0 {
      PrefixTotals(ps, m - 1);
      SummaryCount(ps, m - 1);
      TotalsStep(Summaries(ps), ps, Stores(ps), m);
    }
  }

  /** One more summary adds its count to the total and its store's pairs to
      the pair count. */
  lemma TotalsStep(ss: seq<StoreSummary>, ps: seq<Pair>, ks: seq<string>, m: nat)
    requires 0 < m <= |ss| && m <= |ks|
    requires TotalCount(ss[..m - 1]) == PairsIn(ps, ks[..m - 1])
    requires ss[m - 1].count == |LinksOf(ps, ks[m - 1])|
    ensures TotalCount(ss[..m]) == PairsIn(ps, ks[..m])
  {
    assert ss[..m][..m - 1] == ss[..m - 1];
    assert ks[..m][..m - 1] == ks[..m - 1];
  }

  /** Without repeated pairs, a summary counts every pair of its store. */
  lemma SummaryCount(ps: seq<Pair>, i: nat)
    requires NoDup(ps) && i < |Stores(ps)|
    ensures Summaries(ps)[i].count == |LinksOf(ps, Stores(ps)[i])|
  {
    LinksOfNoDup(ps, Stores(ps)[i]);
    DistinctOfNoDup(LinksOf(ps, Stores(ps)[i]));
  }

  // ------------------------------------------------------ one link per store

  /** The link of the first pair of store s, or "" when there is none. */
  function FirstLinkOf(ps: seq<Pair>, s: string): string {
    if ps == [] then ""
    else if ps[0].0 == s then ps[0].1
    else FirstLinkOf(ps[1..], s)
  }

  /** sort_values(["tienda", "link"]).groupby("tienda").first(). */
  function OnePerStore(ps: seq<Pair>): seq<Pair> {
    var sorted := Sort(ps, PairLt);
    var ks := Stores(sorted);
    seq(|ks|, i requires 0 <= i < |ks| => (ks[i], FirstLinkOf(sorted, ks[i])))
  }

  /** In sorted pairs, the first link of a store is its smallest. */
  lemma {:induction false} FirstLinkIsSmallest(ps: seq<Pair>, s: string, l: string)
    requires Sorted(ps, PairLt) && (s, l) in ps
    ensures (s, FirstLinkOf(ps, s)) in ps
    ensures !StrLt(l, FirstLinkOf(ps, s))
  {
    if ps[0].0 != s {
      assert ps == [ps[0]] + ps[1..];
      assert Sorted(ps[1..], PairLt);
      FirstLinkIsSmallest(ps[1..], s, l);
    } else {
      assert FirstLinkOf(ps, s) == ps[0].1;
      var j :| 0 <= j < |ps| && ps[j] == (s, l);
      if j != 0 {
        assert !PairLt(ps[j], ps[0]);
      } else {
        StrLtIrreflexive(l);
      }
    }
  }

  /** Sorting keeps the pairs: the sorted pairs are the same pairs. */
  lemma SortKeepsPairs(ps: seq<Pair>)
    ensures forall p :: p in Sort(ps, PairLt) <==> p in ps
  {
    var sorted := Sort(ps, PairLt);
    forall p ensures p in sorted <==> p in ps {
      assert p in sorted <==> p in multiset(sorted);
      assert p in ps <==> p in multiset(ps);
    }
  }

  /** Sorting the pairs first does not change the stores. */
  lemma StoresOfSorted(ps: seq<Pair>)
    ensures Stores(Sort(ps, PairLt)) == Stores(ps)
  {
    var sorted := Sort(ps, PairLt);
    SortKeepsPairs(ps);
    StoresSpec(ps);
    StoresSpec(sorted);
    StrLtIsStrictTotalOrder();
    StrictlySortedUnique(Stores(sorted), Stores(ps), StrLt);
  }

  /** One row per store, in ascending store order. */
  lemma OnePerStoreStores(ps: seq<Pair>)
    ensures |OnePerStore(ps)| == |Stores(ps)|
    ensures forall i :: 0 <= i < |OnePerStore(ps)| ==> OnePerStore(ps)[i].0 == Stores(ps)[i]
  {
    StoresOfSorted(ps);
  }

  /** Each row carries a link of its store that no other link of the store
      precedes. */
  lemma OnePerStoreSmallest(ps: seq<Pair>, i: nat, l: string)
    requires i < |OnePerStore(ps)|
    ensures OnePerStore(ps)[i] in ps
    ensures (OnePerStore(ps)[i].0, l) in ps ==> !StrLt(l, OnePerStore(ps)[i].1)
  {
    var sorted := Sort(ps, PairLt);
    var ks := Stores(sorted);
    var s := ks[i];
    assert OnePerStore(ps)[i] == (s, FirstLinkOf(sorted, s));
    PairLtIsStrictTotalOrder();
    SortSorted(ps, PairLt);
    SortKeepsPairs(ps);
    StoresSpec(sorted);
    assert s in ks;
    var l0 :| (s, l0) in sorted;
    FirstLinkIsSmallest(sorted, s, l0);
    if (s, l) in ps {
      FirstLinkIsSmallest(sorted, s, l);
    }
  }
}
