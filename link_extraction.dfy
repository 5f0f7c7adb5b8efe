/**
 The extraction script (extraer_tienda_links.py): for every row of a sheet it
 reads a store cell and a link cell, finds the visit URL of the link cell
 (its hyperlink target, else the first quoted http(s) URL of a HYPERLINK
 formula, else a bare GUID completed with a fixed prefix), keeps the
 (store, URL) pairs, removes repeated pairs, sorts them, groups the links of
 each store and keeps a diagnostic entry per row.
 */
module LinkExtraction {
  import opened Wrappers
  import opened Text
  import opened Sequences
  import opened Ordering
  import opened LinkPairs

  // ------------------------------------------------------------ the sheet

  /** A cell value as openpyxl gives it: nothing, text, or another value
      (number, date, boolean) with its str() and its truth value. */
  datatype Value = Empty | Text(text: string) | Other(shown: string, truthy: bool)

  /** Python truthiness of a cell value. */
  predicate Truthy(v: Value) {
    match v
    case Empty => false
    case Text(s) => s != ""
    case Other(_, b) => b
  }

  /** str(v). */
  function Shown(v: Value): string {
    match v
    case Empty => "None"
    case Text(s) => s
    case Other(s, _) => s
  }

  /** The link cell: its value and the target of its hyperlink, if it has a
      hyperlink with a target. */
  datatype LinkCell = LinkCell(value: Value, target: Option<string>)

  /** One scanned row: the store cell and the link cell. */
  datatype SheetRow = SheetRow(store: Value, link: LinkCell)

  // ------------------------------------------------------------ GUIDs

  /** The prefix that turns a visit GUID into its URL. */
  const UrlPrefix: string := "https://" + "services.traxretail.com/trax-one/sindicatedmx/explore/visit/"

  /** [0-9a-fA-F]. */
  predicate IsHex(c: char) {
    '0' <= c <= '9' || 'a' <= c <= 'f' || 'A' <= c <= 'F'
  }

  /** Hyphens at 8, 13, 18 and 23. */
  predicate IsGuidHyphenPosition(k: int) {
    k == 8 || k == 13 || k == 18 || k == 23
  }

  /** GUID_RE.fullmatch(s): 36 characters, hyphens at the group boundaries,
      hexadecimal digits everywhere else. */
  predicate IsGuid(s: string) {
    |s| == 36 && forall k :: 0 <= k < 36 ==> if IsGuidHyphenPosition(k) then s[k] == '-' else IsHex(s[k])
  }

  /** Every character is a hexadecimal digit. */
  predicate AllHex(s: string) {
    forall k :: 0 <= k < |s| ==> IsHex(s[k])
  }

  /** Five hexadecimal groups of 8, 4, 4, 4 and 12 digits joined with hyphens
      form a GUID. */
  lemma GuidFromGroups(g1: string, g2: string, g3: string, g4: string, g5: string)
    requires |g1| == 8 && |g2| == 4 && |g3| == 4 && |g4| == 4 && |g5| == 12
    requires AllHex(g1) && AllHex(g2) && AllHex(g3) && AllHex(g4) && AllHex(g5)
    ensures IsGuid(g1 + "-" + g2 + "-" + g3 + "-" + g4 + "-" + g5)
  {
    var s := g1 + "-" + g2 + "-" + g3 + "-" + g4 + "-" + g5;
    forall k | 0 <= k < 36 ensures if IsGuidHyphenPosition(k) then s[k] == '-' else IsHex(s[k]) {
      if k < 8 {
        assert s[k] == g1[k];
      } else if 8 < k < 13 {
        assert s[k] == g2[k - 9];
      } else if 13 < k < 18 {
        assert s[k] == g3[k - 14];
      } else if 18 < k < 23 {
        assert s[k] == g4[k - 19];
      } else if 23 < k {
        assert s[k] == g5[k - 24];
      }
    }
  }

  /** A stretch of a GUID with no hyphen position in it is hexadecimal. */
  lemma GuidGroupHex(s: string, i: nat, j: nat)
    requires IsGuid(s) && i <= j <= 36
    requires forall k :: i <= k < j ==> !IsGuidHyphenPosition(k)
    ensures AllHex(s[i..j])
  {
    forall k | 0 <= k < j - i ensures IsHex(s[i..j][k]) {
      assert s[i..j][k] == s[i + k] && !IsGuidHyphenPosition(i + k);
    }
  }

  /** Cutting any 36 characters at the hyphen positions and joining the pieces
      back with hyphens gives them back when the cut positions hold hyphens. */
  lemma GuidJoin(s: string)
    requires IsGuid(s)
    ensures s == s[..8] + "-" + s[9..13] + "-" + s[14..18] + "-" + s[19..23] + "-" + s[24..]
  {
    var t := s[..8] + "-" + s[9..13] + "-" + s[14..18] + "-" + s[19..23] + "-" + s[24..];
    assert |t| == 36;
    forall k | 0 <= k < 36 ensures t[k] == s[k] {
      if k < 8 {
        assert t[k] == s[..8][k];
      } else if IsGuidHyphenPosition(k) {
        assert s[k] == '-';
      } else if k < 13 {
        assert t[k] == s[9..13][k - 9];
      } else if k < 18 {
        assert t[k] == s[14..18][k - 14];
      } else if k < 23 {
        assert t[k] == s[19..23][k - 19];
      } else {
        assert t[k] == s[24..][k - 24];
      }
    }
  }

  /** Every GUID is such a hyphen-joined sequence of five hexadecimal groups. */
  lemma GuidGroups(s: string)
    requires IsGuid(s)
    ensures s == s[..8] + "-" + s[9..13] + "-" + s[14..18] + "-" + s[19..23] + "-" + s[24..]
    ensures AllHex(s[..8]) && AllHex(s[9..13]) && AllHex(s[14..18]) && AllHex(s[19..23]) && AllHex(s[24..])
  {
    GuidJoin(s);
    GuidGroupHex(s, 0, 8);
    assert s[..8] == s[0..8];
    GuidGroupHex(s, 9, 13);
    GuidGroupHex(s, 14, 18);
    GuidGroupHex(s, 19, 23);
    GuidGroupHex(s, 24, 36);
    assert s[24..] == s[24..36];
  }

  // ------------------------------------------------ URLs inside formulas

  /** The text https?://[^"]+ in full, case ignored, for text without quotes:
      a scheme followed by at least one more character. */
  predicate IsUrlText(u: string) {
    (StartsWithIgnoreCase(u, "http://") && |u| > 7) || (StartsWithIgnoreCase(u, "https://") && |u| > 8)
  }

  /** u sits between two double quotes starting at position i of s, and is a
      URL text without quotes: a match of "(https?://[^"]+)" at i. */
  predicate QuotedUrlAt(s: string, i: nat, u: string) {
    i + |u| + 1 < |s| && s[i] == '"' && s[i + 1..i + 1 + |u|] == u && s[i + 1 + |u|] == '"'
    && '"' !in u && IsUrlText(u)
  }

  /** The index of the first double quote at or after j, or |s|. */
  function NextQuote(s: string, j: nat): (q: nat)
    requires j <= |s|
    ensures j <= q <= |s| && (q < |s| ==> s[q] == '"')
    ensures forall k :: j <= k < q ==> s[k] != '"'
    decreases |s| - j
  {
    if j == |s| || s[j] == '"' then j else NextQuote(s, j + 1)
  }

  /** The first match at position i or later. */
  function FindQuotedUrl(s: string, i: nat): Option<string>
    requires i <= |s|
    decreases |s| - i
  {
    if i == |s| then None
    else if s[i] == '"' && NextQuote(s, i + 1) < |s| && IsUrlText(s[i + 1..NextQuote(s, i + 1)]) then
      Some(s[i + 1..NextQuote(s, i + 1)])
    else FindQuotedUrl(s, i + 1)
  }

  /** extraer_url_de_formula: the first quoted URL of the text, if any. */
  function ExtractUrlFromFormula(s: string): Option<string> {
    FindQuotedUrl(s, 0)
  }

  /** At a given position at most one text matches: the one up to the next
      quote. */
  lemma QuotedUrlAtIsUpToNextQuote(s: string, i: nat, u: string)
    requires i < |s|
    ensures QuotedUrlAt(s, i, u) <==>
      s[i] == '"' && NextQuote(s, i + 1) < |s| && u == s[i + 1..NextQuote(s, i + 1)] && IsUrlText(u)
  {
    if QuotedUrlAt(s, i, u) {
      var q := NextQuote(s, i + 1);
      var e := i + 1 + |u|;
      forall k | i + 1 <= k < e ensures s[k] != '"' {
        assert s[k] == u[k - i - 1];
      }
      assert q == e;
    }
    if s[i] == '"' && NextQuote(s, i + 1) < |s| && u == s[i + 1..NextQuote(s, i + 1)] && IsUrlText(u) {
      var q := NextQuote(s, i + 1);
      assert '"' !in u by {
        forall k | 0 <= k < |u| ensures u[k] != '"' {
          assert u[k] == s[i + 1 + k];
        }
      }
    }
  }

  /** FindQuotedUrl returns the match at the smallest position at or after i,
      and None when there is none. */
  lemma {:induction false} FindQuotedUrlSpec(s: string, i: nat) returns (m: nat)
    requires i <= |s|
    ensures FindQuotedUrl(s, i).Some? ==> i <= m < |s| && QuotedUrlAt(s, m, FindQuotedUrl(s, i).value)
    ensures FindQuotedUrl(s, i).Some? ==> forall k, u :: i <= k < m ==> !QuotedUrlAt(s, k, u)
    ensures FindQuotedUrl(s, i).None? ==> forall k, u :: i <= k ==> !QuotedUrlAt(s, k, u)
    decreases |s| - i
  {
    if i == |s| {
      m := i;
    } else {
      forall u ensures QuotedUrlAt(s, i, u) <==>
        s[i] == '"' && NextQuote(s, i + 1) < |s| && u == s[i + 1..NextQuote(s, i + 1)] && IsUrlText(u)
      {
        QuotedUrlAtIsUpToNextQuote(s, i, u);
      }
      if s[i] == '"' && NextQuote(s, i + 1) < |s| && IsUrlText(s[i + 1..NextQuote(s, i + 1)]) {
        m := i;
      } else {
        m := FindQuotedUrlSpec(s, i + 1);
      }
    }
  }

  /** extraer_url_de_formula returns the text of the leftmost match of
      "(https?://[^"]+)", case ignored, and None when nothing matches. */
  lemma ExtractUrlFromFormulaSpec(s: string) returns (m: nat)
    ensures ExtractUrlFromFormula(s).Some? ==> m < |s| && QuotedUrlAt(s, m, ExtractUrlFromFormula(s).value)
    ensures ExtractUrlFromFormula(s).Some? ==> forall k: nat, u :: k < m ==> !QuotedUrlAt(s, k, u)
    ensures ExtractUrlFromFormula(s).None? ==> forall k, u :: !QuotedUrlAt(s, k, u)
  {
    m := FindQuotedUrlSpec(s, 0);
  }

  // ----------------------------------------------------- the URL cascade

  /** Python truthiness of an optional text. */
  predicate Present(u: Option<string>) {
    u.Some? && u.value != ""
  }

  /** The value starts, case-sensitively, with =HIPERVINCULO( or =HYPERLINK(. */
  predicate IsHyperlinkFormula(s: string) {
    "=HIPERVINCULO(" <= s || "=HYPERLINK(" <= s
  }

  /** The hyperlink target when it is not empty. */
  function FromTarget(c: LinkCell): Option<string> {
    if Present(c.target) then c.target else None
  }

  /** Step (b): when nothing was found, the URL of a HYPERLINK formula. */
  function FromFormula(c: LinkCell, url: Option<string>): Option<string> {
    if !Present(url) && c.value.Text? && IsHyperlinkFormula(c.value.text) then ExtractUrlFromFormula(c.value.text)
    else url
  }

  /** Step (c): when still nothing was found, a bare GUID completed with the
      prefix. */
  function FromGuid(c: LinkCell, url: Option<string>): Option<string> {
    if !Present(url) && c.value.Text? && IsGuid(Strip(c.value.text)) then Some(UrlPrefix + Strip(c.value.text))
    else url
  }

  /** The URL detected in a link cell (url_detectada). */
  function DetectedUrl(c: LinkCell): Option<string> {
    FromGuid(c, FromFormula(c, FromTarget(c)))
  }

  /** A non-empty hyperlink target wins. */
  lemma TargetFirst(c: LinkCell)
    requires Present(c.target)
    ensures DetectedUrl(c) == c.target
  {
  }

  /** Without a target, a HYPERLINK formula holding a quoted URL gives that
      URL, even when the value would also strip to a GUID. */
  lemma FormulaSecond(c: LinkCell)
    requires !Present(c.target) && c.value.Text? && IsHyperlinkFormula(c.value.text)
    requires ExtractUrlFromFormula(c.value.text).Some?
    ensures DetectedUrl(c) == ExtractUrlFromFormula(c.value.text)
  {
    var s := c.value.text;
    var m := ExtractUrlFromFormulaSpec(s);
    assert |ExtractUrlFromFormula(s).value| > 7;
  }

  /** A formula never strips to a GUID: its first character is '='. */
  lemma FormulaIsNoGuid(s: string)
    requires IsHyperlinkFormula(s)
    ensures !IsGuid(Strip(s))
  {
    var i := StripRemovesOnlyEnds(s);
    assert s[0] == '=';
    if Strip(s) != [] {
      assert i == 0;
      assert Strip(s)[0] == '=';
      assert !IsHex('=');
    }
  }

  /** Otherwise a value that strips to a GUID gives the prefixed GUID; and in
      every other case no URL is detected. */
  lemma GuidThird(c: LinkCell)
    requires !Present(c.target)
    requires !(c.value.Text? && IsHyperlinkFormula(c.value.text) && ExtractUrlFromFormula(c.value.text).Some?)
    ensures c.value.Text? && IsGuid(Strip(c.value.text)) ==> DetectedUrl(c) == Some(UrlPrefix + Strip(c.value.text))
    ensures !(c.value.Text? && IsGuid(Strip(c.value.text))) ==> DetectedUrl(c).None?
  {
    if c.value.Text? && IsHyperlinkFormula(c.value.text) {
      FormulaIsNoGuid(c.value.text);
      var m := ExtractUrlFromFormulaSpec(c.value.text);
    }
  }

  /** A detected URL is never empty. */
  lemma DetectedUrlPresent(c: LinkCell)
    requires DetectedUrl(c).Some?
    ensures DetectedUrl(c).value != ""
  {
    if !Present(c.target) && c.value.Text? && IsHyperlinkFormula(c.value.text) {
      var m := ExtractUrlFromFormulaSpec(c.value.text);
    }
  }

  // ----------------------------------------------------------- the scan

  /** The pair a row contributes: store and URL, both stripped, when both
      are truthy. */
  function RowPair(r: SheetRow): Option<Pair> {
    var url := DetectedUrl(r.link);
    if Truthy(r.store) && Present(url) then Some((Strip(Shown(r.store)), Strip(url.value))) else None
  }

  /** The values present in a sequence of options, in order. */
  function Somes<T>(os: seq<Option<T>>): seq<T> {
    if os == [] then []
    else
      var n := |os| - 1;
      Somes(os[..n]) + (if os[n].Some? then [os[n].value] else [])
  }

  /** A value is kept exactly when some option holds it. */
  lemma {:induction false} SomesMembers<T>(os: seq<Option<T>>, x: T)
    ensures x in Somes(os) <==> exists i :: 0 <= i < |os| && os[i] == Some(x)
  {
    if os != [] {
      var n := |os| - 1;
      SomesMembers(os[..n], x);
      if x in Somes(os[..n]) {
        var i :| 0 <= i < n && os[..n][i] == Some(x);
        assert os[i] == Some(x);
      }
      if exists i :: 0 <= i < |os| && os[i] == Some(x) {
        var i :| 0 <= i < |os| && os[i] == Some(x);
        if i < n {
          assert os[..n][i] == os[i];
        }
      }
    }
  }

  /** The pair of every row, if it gives one. */
  function RowPairs(rows: seq<SheetRow>): (os: seq<Option<Pair>>)
    ensures |os| == |rows| && forall i :: 0 <= i < |rows| ==> os[i] == RowPair(rows[i])
  {
    seq(|rows|, i requires 0 <= i < |rows| => RowPair(rows[i]))
  }

  /** pares: the pairs of the rows, in row order. */
  function ScannedPairs(rows: seq<SheetRow>): seq<Pair> {
    Somes(RowPairs(rows))
  }

  /** Scanning one more row appends that row's pair, if it gives one. */
  lemma ScannedPairsSnoc(rows: seq<SheetRow>, i: nat)
    requires i < |rows|
    ensures ScannedPairs(rows[..i + 1])
      == ScannedPairs(rows[..i]) + (if RowPair(rows[i]).Some? then [RowPair(rows[i]).value] else [])
  {
    var os := RowPairs(rows[..i + 1]);
    assert os[..i] == RowPairs(rows[..i]);
    assert os[i] == RowPair(rows[i]);
  }

  /** A pair is collected exactly when some row with a truthy store and a
      detected URL gives it. */
  lemma ScannedPairsMembers(rows: seq<SheetRow>, p: Pair)
    ensures p in ScannedPairs(rows) <==> exists i :: 0 <= i < |rows| && RowPair(rows[i]) == Some(p)
  {
    SomesMembers(RowPairs(rows), p);
  }

  /** A URL built from a GUID is already stripped. */
  lemma GuidUrlStripped(g: string)
    requires IsGuid(g)
    ensures Strip(UrlPrefix + g) == UrlPrefix + g
  {
    var u := UrlPrefix + g;
    assert u[0] == "https://"[0];
    assert u[|u| - 1] == g[35];
    assert !IsSpace(g[35]) by {
      assert !IsGuidHyphenPosition(35);
    }
    StripTrimmed(u);
  }

  /** One diagnostic entry: the store cell, the link cell's value, its
      hyperlink target and the detected URL. */
  datatype DiagEntry = DiagEntry(store: Value, value: Value, target: Option<string>, url: Option<string>)

  /** The diagnostic entry of a row. */
  function Diagnose(r: SheetRow): DiagEntry {
    DiagEntry(r.store, r.link.value, r.link.target, DetectedUrl(r.link))
  }

  /** The three URL steps of main for one link cell, each overriding the
      previous one only when it found nothing. */
  method DetectUrl(cell: LinkCell) returns (url: Option<string>)
    ensures url == DetectedUrl(cell)
  {
    url := None;
    if Present(cell.target) {
      url := cell.target;
    }
    if !Present(url) && cell.value.Text? && IsHyperlinkFormula(cell.value.text) {
      url := ExtractUrlFromFormula(cell.value.text);
    }
    if !Present(url) && cell.value.Text? && IsGuid(Strip(cell.value.text)) {
      url := Some(UrlPrefix + Strip(cell.value.text));
    }
  }

  /** One pass of the loop of main: the URL of the row, the pair when store
      and URL are both truthy, and the diagnostic entry. */
  method ScanRow(row: SheetRow) returns (pair: Option<Pair>, entry: DiagEntry)
    ensures pair == RowPair(row) && entry == Diagnose(row)
  {
    var url := DetectUrl(row.link);
    pair := None;
    if Truthy(row.store) && Present(url) {
      pair := Some((Strip(Shown(row.store)), Strip(url.value)));
    }
    entry := DiagEntry(row.store, row.link.value, row.link.target, url);
  }

  /** The loop of main over every row: the pairs in row order and one
      diagnostic entry per row. */
  method ScanRows(rows: seq<SheetRow>) returns (pares: seq<Pair>, diag: seq<DiagEntry>)
    ensures pares == ScannedPairs(rows)
    ensures |diag| == |rows| && forall i :: 0 <= i < |rows| ==> diag[i] == Diagnose(rows[i])
  {
    pares := [];
    diag := [];
    for i := 0 to |rows|
      invariant pares == ScannedPairs(rows[..i])
      invariant |diag| == i && forall k :: 0 <= k < i ==> diag[k] == Diagnose(rows[k])
    {
      ScannedPairsSnoc(rows, i);
      var pair, entry := ScanRow(rows[i]);
      if pair.Some? {
        pares := pares + [pair.value];
      }
      diag := diag + [entry];
    }
    assert rows[..|rows|] == rows;
  }

  /** pd.DataFrame(diag).head(50). */
  function DiagHead(diag: seq<DiagEntry>): (r: seq<DiagEntry>)
    ensures |r| == if |diag| < 50 then |diag| else 50
    ensures r <= diag
  {
    if |diag| <= 50 then diag else diag[..50]
  }

  /** A hyperlink target made only of blanks is truthy, so the row still
      gives a pair, whose link strips to "". */
  lemma BlankTargetGivesEmptyLink()
    ensures RowPair(SheetRow(Text("S"), LinkCell(Empty, Some(" ")))) == Some(("S", ""))
  {
    assert Strip(" ") == "" by {
      assert SkipSpaces(" ", 0) == 1;
    }
    StripTrimmed("S");
  }

  // ------------------------------------------------------------ grouping

  /** df_group: every store of the unique pairs once, ascending, with its
      links joined by newlines. */
  function GroupedLinks(u: seq<Pair>): (r: seq<(string, string)>)
    ensures |r| == |Groups(u)|
  {
    var gs := Groups(u);
    seq(|gs|, j requires 0 <= j < |gs| => (gs[j].0, Join(gs[j].1, "\n")))
  }

  /** agrupado[t].append(l) over the unique pairs, then the sorted items,
      each with its links joined. */
  method GroupLinks(u: seq<Pair>) returns (rows: seq<(string, string)>)
    ensures rows == GroupedLinks(u)
  {
    var agrupado: map<string, seq<string>> := map[];
    for i := 0 to |u|
      invariant forall s :: s in agrupado <==> s in StoresOf(u[..i])
      invariant forall s :: s in agrupado ==> agrupado[s] == LinksOf(u[..i], s)
    {
      assert u[..i + 1][..i] == u[..i];
      assert StoresOf(u[..i + 1]) == StoresOf(u[..i]) + [u[i].0];
      var (t, l) := u[i];
      if t in agrupado {
        agrupado := agrupado[t := agrupado[t] + [l]];
      } else {
        forall k | 0 <= k < i ensures u[..i][k].0 != t {
          assert StoresOf(u[..i])[k] == u[..i][k].0;
        }
        agrupado := agrupado[t := [l]];
      }
    }
    assert u[..|u|] == u;
    var keys := Stores(u);
    StoresSpec(u);
    rows := [];
    for j := 0 to |keys|
      invariant |rows| == j
      invariant forall k :: 0 <= k < j ==> rows[k] == (keys[k], Join(LinksOf(u, keys[k]), "\n"))
    {
      var s := keys[j];
      assert s in keys;
      var l :| (s, l) in u;
      var k :| 0 <= k < |u| && u[k] == (s, l);
      assert StoresOf(u)[k] == s;
      rows := rows + [(s, Join(agrupado[s], "\n"))];
    }
  }

  /** On the unique pairs of the scan, each row of df_group is a store and
      its links, strictly ascending, joined by newlines; the stores are
      strictly ascending and are exactly the stores of the pairs. */
  lemma GroupedLinksSpec(rows: seq<SheetRow>, j: nat)
    requires j < |GroupedLinks(UniquePairs(ScannedPairs(rows)))|
    ensures var u := UniquePairs(ScannedPairs(rows));
      GroupedLinks(u)[j].0 == Groups(u)[j].0 &&
      GroupedLinks(u)[j].1 == Join(Groups(u)[j].1, "\n") &&
      StrictlySorted(Groups(u)[j].1, StrLt) &&
      forall l :: l in Groups(u)[j].1 <==> (Groups(u)[j].0, l) in ScannedPairs(rows)
  {
    var ps := ScannedPairs(rows);
    var u := UniquePairs(ps);
    UniquePairsSpec(ps);
    GroupsSpec(u, j);
  }
}
