/**
 String helpers with the meaning the scripts rely on: Python's str.strip(),
 re.sub(r"\s+", " ", s), case-insensitive prefix and substring tests, and
 sep.join(items).
 */
module Text {

  /** The characters for which Python's str.isspace() holds: the ones str.strip()
      removes and the ones the regular expression \s matches. */
  predicate IsSpace(c: char) {
    c == ' ' || '\t' <= c <= '\r' || '\U{001C}' <= c <= '\U{001F}' || c == '\U{0085}' || c == '\U{00A0}'
    || c == '\U{1680}' || '\U{2000}' <= c <= '\U{200A}' || c == '\U{2028}' || c == '\U{2029}'
    || c == '\U{202F}' || c == '\U{205F}' || c == '\U{3000}'
  }

  /** No whitespace at either end. */
  predicate Trimmed(s: string) {
    s == [] || (!IsSpace(s[0]) && !IsSpace(s[|s| - 1]))
  }

  /** Whitespace occurs only as single spaces: no tab, newline or other blank, and
      never two blanks in a row. */
  predicate Collapsed(s: string) {
    s == [] ||
    ((IsSpace(s[0]) ==> s[0] == ' ' && (|s| == 1 || !IsSpace(s[1]))) && Collapsed(s[1..]))
  }

  /** The index of the first non-blank character at or after i, or |s|. */
  function SkipSpaces(s: string, i: nat): (j: nat)
    requires i <= |s|
    ensures i <= j <= |s|
    ensures forall k :: i <= k < j ==> IsSpace(s[k])
    ensures j == |s| || !IsSpace(s[j])
    decreases |s| - i
  {
    if i == |s| || !IsSpace(s[i]) then i else SkipSpaces(s, i + 1)
  }

  /** The index just past the last non-blank character before j, or 0. */
  function SkipSpacesBack(s: string, j: nat): (i: nat)
    requires j <= |s|
    ensures i <= j
    ensures forall k :: i <= k < j ==> IsSpace(s[k])
    ensures i == 0 || !IsSpace(s[i - 1])
  {
    if j == 0 || !IsSpace(s[j - 1]) then j else SkipSpacesBack(s, j - 1)
  }

  /** str.strip(): what lies between the leading and the trailing whitespace runs. */
  function Strip(s: string): (r: string)
    ensures Trimmed(r) && |r| <= |s|
  {
    var a := SkipSpaces(s, 0);
    var b := SkipSpacesBack(s, |s|);
    if a < b then s[a..b] else ""
  }

  /** Strip removes whitespace at the ends and nothing else: the result is the
      infix of s that starts at i, and everything outside it is whitespace. */
  lemma StripRemovesOnlyEnds(s: string) returns (i: nat)
    ensures i + |Strip(s)| <= |s| && Strip(s) == s[i..i + |Strip(s)|]
    ensures forall k :: 0 <= k < i ==> IsSpace(s[k])
    ensures forall k :: i + |Strip(s)| <= k < |s| ==> IsSpace(s[k])
  {
    var a := SkipSpaces(s, 0);
    var b := SkipSpacesBack(s, |s|);
    i := if a < b then a else |s|;
  }

  lemma StripTrimmed(s: string)
    requires Trimmed(s)
    ensures Strip(s) == s
  {
  }

  /** re.sub(r"\s+", " ", s): every maximal run of whitespace becomes one space. */
  function CollapseSpaces(s: string): (r: string)
    ensures Collapsed(r)
    ensures (r == []) == (s == [])
    ensures s != [] ==> r[0] == (if IsSpace(s[0]) then ' ' else s[0])
    ensures s != [] ==> r[|r| - 1] == (if IsSpace(s[|s| - 1]) then ' ' else s[|s| - 1])
    decreases |s|
  {
    if s == [] then []
    else if IsSpace(s[0]) then
      var j := SkipSpaces(s, 0);
      var rest := CollapseSpaces(s[j..]);
      CollapseEnds(' ', s[j..], rest, s[|s| - 1]);
      " " + rest
    else
      var rest := CollapseSpaces(s[1..]);
      CollapseEnds(s[0], s[1..], rest, s[|s| - 1]);
      [s[0]] + rest
  }

  /** The ends of one collapsing step: a character c in front of rest, the
      collapsed form of u, where the whole input ends in last (u's own last
      character when u is not empty, and collapsing to c when u is empty). */
  lemma CollapseEnds(c: char, u: string, rest: string, last: char)
    requires Collapsed(rest) && (rest == []) == (u == [])
    requires u != [] ==> rest[0] == (if IsSpace(u[0]) then ' ' else u[0])
    requires u != [] ==> u[|u| - 1] == last && rest[|rest| - 1] == (if IsSpace(last) then ' ' else last)
    requires IsSpace(c) ==> c == ' ' && (u == [] || !IsSpace(u[0]))
    requires u == [] ==> c == (if IsSpace(last) then ' ' else last)
    ensures Collapsed([c] + rest) && ([c] + rest)[0] == c
    ensures ([c] + rest)[|rest|] == (if IsSpace(last) then ' ' else last)
  {
    assert ([c] + rest)[1..] == rest;
  }

  /** A first character that needs no collapsing is kept as it is. */
  lemma CollapseSpacesStep(s: string)
    requires s != [] && (IsSpace(s[0]) ==> s[0] == ' ' && (|s| == 1 || !IsSpace(s[1])))
    ensures CollapseSpaces(s) == [s[0]] + CollapseSpaces(s[1..])
  {
    if IsSpace(s[0]) {
      assert SkipSpaces(s, 0) == 1 by {
        assert SkipSpaces(s, 0) == SkipSpaces(s, 1);
      }
    }
  }

  /** Text that is already collapsed is left alone. */
  lemma {:induction false} CollapsedIsFixed(s: string)
    requires Collapsed(s)
    ensures CollapseSpaces(s) == s
    decreases |s|
  {
    if s != [] {
      var tail := s[1..];
      assert Collapsed(tail);
      CollapseSpacesStep(s);
      CollapsedIsFixed(tail);
      assert s == [s[0]] + tail;
    }
  }

  /** The end of the word that starts at i: the first blank at or after i, or |s|. */
  function WordEnd(s: string, i: nat): (j: nat)
    requires i <= |s|
    ensures i <= j <= |s|
    ensures forall k :: i <= k < j ==> !IsSpace(s[k])
    ensures j == |s| || IsSpace(s[j])
    decreases |s| - i
  {
    if i == |s| || IsSpace(s[i]) then i else WordEnd(s, i + 1)
  }

  /** The words of s from position i on: its maximal runs of non-blank
      characters, in order. */
  function WordsFrom(s: string, i: nat): (ws: seq<string>)
    requires i <= |s|
    ensures forall m :: 0 <= m < |ws| ==> ws[m] != [] && forall k :: 0 <= k < |ws[m]| ==> !IsSpace(ws[m][k])
    decreases |s| - i
  {
    var a := SkipSpaces(s, i);
    if a == |s| then []
    else
      var b := WordEnd(s, a);
      var ws := [s[a..b]] + WordsFrom(s, b);
      assert ws[0] == s[a..b] && ws[1..] == WordsFrom(s, b);
      ws
  }

  /** str.split() without arguments. */
  function Words(s: string): seq<string> {
    WordsFrom(s, 0)
  }

  /** Collapsing keeps a leading run of non-blank characters as it is. */
  lemma {:induction false} CollapseNonBlankPrefix(t: string, n: nat)
    requires n <= |t| && forall k :: 0 <= k < n ==> !IsSpace(t[k])
    ensures CollapseSpaces(t) == t[..n] + CollapseSpaces(t[n..])
    decreases n
  {
    if n == 0 {
      assert t[0..] == t;
    } else {
      var u := t[1..];
      NonBlankTail(t, n);
      CollapseSpacesStep(t);
      CollapseNonBlankPrefix(u, n - 1);
      DropFirst(t, n);
      ConsAppend(t[0], u[..n - 1], CollapseSpaces(t[n..]), t[..n]);
    }
  }

  /** Dropping the first of n non-blank characters leaves n - 1 of them. */
  lemma NonBlankTail(t: string, n: nat)
    requires 0 < n <= |t| && forall k :: 0 <= k < n ==> !IsSpace(t[k])
    ensures forall k :: 0 <= k < n - 1 ==> !IsSpace(t[1..][k])
  {
    assert forall k :: 0 <= k < n - 1 ==> t[1..][k] == t[k + 1];
  }

  /** Slicing t[1..] is slicing t one position further on. */
  lemma DropFirst(t: string, n: nat)
    requires 0 < n <= |t|
    ensures t[1..][n - 1..] == t[n..] && t[..n] == [t[0]] + t[1..][..n - 1]
  {
  }

  lemma ConsAppend<T>(x: T, a: seq<T>, b: seq<T>, c: seq<T>)
    requires c == [x] + a
    ensures [x] + (a + b) == c + b
  {
  }

  /** A leading run of blanks collapses to one space. */
  lemma CollapseBlankHead(t: string, rest: string, j: nat)
    requires t != [] && IsSpace(t[0]) && j == SkipSpaces(t, 0) && t[j..] == rest
    ensures CollapseSpaces(t) == " " + CollapseSpaces(rest)
  {
  }

  /** Skipping blanks inside the slice s[lo..hi] stops where skipping them in
      s does, or at the end of the slice. */
  lemma {:induction false} SkipSpacesInSlice(s: string, lo: nat, hi: nat, i: nat)
    requires lo <= i <= hi <= |s|
    ensures lo + SkipSpaces(s[lo..hi], i - lo) == if SkipSpaces(s, i) < hi then SkipSpaces(s, i) else hi
    decreases hi - i
  {
    if i < hi {
      assert s[lo..hi][i - lo] == s[i];
      if IsSpace(s[i]) {
        SkipSpacesInSlice(s, lo, hi, i + 1);
      }
    }
  }

  /** The words from a word start: that word, then the words after it. */
  lemma WordsFromWordStart(s: string, i: nat)
    requires i < |s| && !IsSpace(s[i])
    ensures WordsFrom(s, i) == [s[i..WordEnd(s, i)]] + WordsFrom(s, WordEnd(s, i))
  {
    assert SkipSpaces(s, i) == i;
  }

  /** Leading blanks do not change the words. */
  lemma WordsFromSkip(s: string, i: nat)
    requires i <= |s|
    ensures WordsFrom(s, i) == WordsFrom(s, SkipSpaces(s, i))
  {
    var a := SkipSpaces(s, i);
    assert SkipSpaces(s, a) == a;
  }

  /** Joining a word in front of a non-empty list puts the separator between. */
  lemma JoinCons(w: string, ws: seq<string>, sep: string)
    requires ws != []
    ensures Join([w] + ws, sep) == w + (sep + Join(ws, sep))
  {
    assert ([w] + ws)[1..] == ws;
  }

  /** A run of non-blank characters collapses to itself. */
  lemma CollapseWord(w: string)
    requires forall k :: 0 <= k < |w| ==> !IsSpace(w[k])
    ensures CollapseSpaces(w) == w
  {
    CollapseNonBlankPrefix(w, |w|);
    assert w[..|w|] == w && w[|w|..] == [];
  }

  /** Only blanks after the word at i: it is the last word. */
  lemma WordsFromLast(s: string, i: nat, e: nat)
    requires i < e <= |s| && !IsSpace(s[i]) && WordEnd(s, i) == e
    requires forall k :: e <= k < |s| ==> IsSpace(s[k])
    ensures WordsFrom(s, i) == [s[i..e]]
  {
    WordsFromWordStart(s, i);
    WordsFromSkip(s, e);
    assert SkipSpaces(s, e) == |s|;
  }

  /** The last word: when the word at i ends at e and only blanks follow,
      collapsing s[i..e] gives that word alone. */
  lemma CollapseLastWord(s: string, i: nat, e: nat)
    requires i < e <= |s| && !IsSpace(s[i]) && WordEnd(s, i) == e
    requires forall k :: e <= k < |s| ==> IsSpace(s[k])
    ensures CollapseSpaces(s[i..e]) == Join(WordsFrom(s, i), " ")
  {
    CollapseWord(s[i..e]);
    WordsFromLast(s, i, e);
  }

  /** Collapsing keeps the word at i and goes on after it. */
  lemma CollapseAfterWord(s: string, i: nat, e: nat)
    requires i < e <= |s| && WordEnd(s, i) <= e
    ensures CollapseSpaces(s[i..e]) == s[i..WordEnd(s, i)] + CollapseSpaces(s[WordEnd(s, i)..e])
  {
    CollapseNonBlankSlice(s, i, WordEnd(s, i), e);
  }

  /** Inside a slice, a non-blank stretch at its start is kept as it is. */
  lemma CollapseNonBlankSlice(s: string, i: nat, b: nat, e: nat)
    requires i <= b <= e <= |s| && forall k :: i <= k < b ==> !IsSpace(s[k])
    ensures CollapseSpaces(s[i..e]) == s[i..b] + CollapseSpaces(s[b..e])
  {
    var t := s[i..e];
    forall k | 0 <= k < b - i
      ensures !IsSpace(t[k])
    {
      assert t[k] == s[i + k];
    }
    CollapseNonBlankPrefix(t, b - i);
    SliceOfSlice(s, i, b, e);
  }

  /** The blanks between two words collapse to one space. */
  lemma CollapseBlanksBeforeWord(s: string, b: nat, e: nat)
    requires b < e <= |s| && IsSpace(s[b]) && SkipSpaces(s, b) < e
    ensures CollapseSpaces(s[b..e]) == " " + CollapseSpaces(s[SkipSpaces(s, b)..e])
  {
    var c := SkipSpaces(s, b);
    SkipSpacesFromSliceStart(s, b, e);
    SliceOfSlice(s, b, c, e);
    CollapseBlankHead(s[b..e], s[c..e], c - b);
  }

  /** Skipping the blanks at the start of s[b..e] stops where skipping them
      in s from b does, when that is inside the slice. */
  lemma SkipSpacesFromSliceStart(s: string, b: nat, e: nat)
    requires b < e <= |s| && SkipSpaces(s, b) < e
    ensures SkipSpaces(s[b..e], 0) == SkipSpaces(s, b) - b
  {
    SkipSpacesInSlice(s, b, e, b);
  }

  /** The words from a word start followed by more words. */
  lemma WordsAfterWord(s: string, i: nat)
    requires i < |s| && !IsSpace(s[i]) && SkipSpaces(s, WordEnd(s, i)) < |s|
    ensures WordsFrom(s, i) == [s[i..WordEnd(s, i)]] + WordsFrom(s, SkipSpaces(s, WordEnd(s, i)))
    ensures WordsFrom(s, SkipSpaces(s, WordEnd(s, i))) != []
  {
    var c := SkipSpaces(s, WordEnd(s, i));
    WordsFromWordStart(s, i);
    WordsFromSkip(s, WordEnd(s, i));
    WordsFromWordStart(s, c);
  }

  /** A word followed by blanks and more words: collapsing gives the word, one
      space, and the collapse of the rest. */
  lemma CollapseWordThenRest(s: string, i: nat, e: nat)
    requires i < e <= |s| && !IsSpace(s[i]) && WordEnd(s, i) < e
    requires SkipSpaces(s, WordEnd(s, i)) < e
    requires CollapseSpaces(s[SkipSpaces(s, WordEnd(s, i))..e]) ==
      Join(WordsFrom(s, SkipSpaces(s, WordEnd(s, i))), " ")
    ensures CollapseSpaces(s[i..e]) == Join(WordsFrom(s, i), " ")
  {
    var b := WordEnd(s, i);
    var c := SkipSpaces(s, b);
    CollapseAfterWord(s, i, e);
    CollapseBlanksBeforeWord(s, b, e);
    WordsAfterWord(s, i);
    JoinCons(s[i..b], WordsFrom(s, c), " ");
  }

  /** Between a word start i and the last non-blank character e - 1,
      collapsing the blanks gives the words from i joined by single spaces. */
  lemma {:induction false} CollapseJoinsWords(s: string, i: nat, e: nat)
    requires i < e <= |s| && !IsSpace(s[i]) && !IsSpace(s[e - 1])
    requires forall k :: e <= k < |s| ==> IsSpace(s[k])
    ensures CollapseSpaces(s[i..e]) == Join(WordsFrom(s, i), " ")
    decreases e - i
  {
    var b := WordEnd(s, i);
    assert b <= e by {
      if e < |s| {
        assert IsSpace(s[e]);
      }
    }
    if b == e {
      CollapseLastWord(s, i, e);
    } else {
      var c := SkipSpaces(s, b);
      assert c < e by {
        assert !IsSpace(s[e - 1]);
      }
      CollapseJoinsWords(s, c, e);
      CollapseWordThenRest(s, i, e);
    }
  }

  /** Cutting s[lo..hi] at m - lo gives s[lo..m] and s[m..hi]. */
  lemma SliceOfSlice(s: string, lo: nat, m: nat, hi: nat)
    requires lo <= m <= hi <= |s|
    ensures s[lo..hi][..m - lo] == s[lo..m] && s[lo..hi][m - lo..] == s[m..hi]
  {
  }

  /** The store-name normalisation is " ".join(s.split()): the words of s, in
      order, separated by single spaces. */
  lemma NormalizeSpacesJoinsWords(s: string)
    ensures NormalizeSpaces(s) == Join(Words(s), " ")
  {
    var a := SkipSpaces(s, 0);
    var b := SkipSpacesBack(s, |s|);
    if a < b {
      CollapseJoinsWords(s, a, b);
      assert SkipSpaces(s, a) == a;
      assert WordsFrom(s, 0) == WordsFrom(s, a);
    } else {
      assert a == |s|;
    }
  }

  /** The store-name normalisation: strip, then collapse whitespace runs. */
  function NormalizeSpaces(s: string): (r: string)
    ensures Trimmed(r) && Collapsed(r)
  {
    CollapseSpaces(Strip(s))
  }

  /** Normalising a normalised name changes nothing. */
  lemma NormalizeSpacesIdempotent(s: string)
    ensures NormalizeSpaces(NormalizeSpaces(s)) == NormalizeSpaces(s)
  {
    var r := NormalizeSpaces(s);
    StripTrimmed(r);
    CollapsedIsFixed(r);
  }

  /** ASCII lower-casing, which is what str.lower() and re.IGNORECASE do to the
      letters of the fixed words compared here. */
  function Lower(c: char): char {
    if 'A' <= c <= 'Z' then (c as int + 32) as char else c
  }

  /** A character matches a lower-case ASCII letter of a pattern when case is
      ignored: ASCII case, plus the two non-ASCII letters that case-fold to
      ASCII ones, the long s (U+017F) for 's' and the Kelvin sign (U+212A) for
      'k'. For the fixed words compared here ("unnamed", "link", "http://",
      "https://") this is both what re.IGNORECASE and what str.lower() do; the
      long s is the one place they differ, and only the URL patterns hold an
      's'. */
  predicate MatchesIgnoreCase(c: char, p: char) {
    Lower(c) == p || (p == 's' && c == '\U{017F}') || (p == 'k' && c == '\U{212A}')
  }

  /** s starts with p when case is ignored; p is written in lower case. */
  predicate StartsWithIgnoreCase(s: string, p: string) {
    |p| <= |s| && forall i :: 0 <= i < |p| ==> MatchesIgnoreCase(s[i], p[i])
  }

  /** p occurs somewhere in s when case is ignored. */
  function ContainsIgnoreCase(s: string, p: string): (b: bool)
    ensures b <==> exists i :: 0 <= i <= |s| && StartsWithIgnoreCase(s[i..], p)
    decreases |s|
  {
    if StartsWithIgnoreCase(s, p) then
      assert s[0..] == s;
      true
    else if s == [] then
      false
    else
      var b := ContainsIgnoreCase(s[1..], p);
      assert forall i :: 1 <= i <= |s| ==> s[1..][i - 1..] == s[i..];
      b
  }

  /** sep.join(items). */
  function Join(items: seq<string>, sep: string): string {
    if |items| == 0 then ""
    else if |items| == 1 then items[0]
    else items[0] + sep + Join(items[1..], sep)
  }
}
