/**
 The orders the scripts sort by, and the sort itself. Python compares strings
 code point by code point, which is Dafny's order on char; pandas sorts a pair
 of key columns lexicographically, and a group key that is missing (NaN) comes
 after every present key.
 */
module Ordering {
  import opened Wrappers
  import opened Sequences

  /** lt is irreflexive, transitive and relates any two distinct values. */
  ghost predicate StrictTotalOrder<T(!new)>(lt: (T, T) -> bool) {
    && (forall x :: !lt(x, x))
    && (forall x, y, z :: lt(x, y) && lt(y, z) ==> lt(x, z))
    && (forall x, y :: x == y || lt(x, y) || lt(y, x))
  }

  /** No element is smaller than one before it. */
  ghost predicate Sorted<T>(s: seq<T>, lt: (T, T) -> bool) {
    forall i, j :: 0 <= i < j < |s| ==> !lt(s[j], s[i])
  }

  /** Every element is smaller than every later one: sorted with no repeats. */
  ghost predicate StrictlySorted<T>(s: seq<T>, lt: (T, T) -> bool) {
    forall i, j :: 0 <= i < j < |s| ==> lt(s[i], s[j])
  }

  /** Python's a < b on str: the first differing code point decides, and a proper
      prefix comes first. */
  predicate StrLt(a: string, b: string) {
    if a == [] then b != []
    else if b == [] then false
    else if a[0] != b[0] then a[0] < b[0]
    else StrLt(a[1..], b[1..])
  }

  /** sort_values(["tienda", "link"]): by store, then by link. */
  predicate PairLt(p: (string, string), q: (string, string)) {
    StrLt(p.0, q.0) || (p.0 == q.0 && StrLt(p.1, q.1))
  }

  /** The order of groupby keys with dropna=False: present keys by text, NaN last. */
  predicate KeyLt(a: Option<string>, b: Option<string>) {
    match (a, b)
    case (Some(x), Some(y)) => StrLt(x, y)
    case (Some(_), None) => true
    case (None, _) => false
  }

  lemma {:induction false} StrLtIrreflexive(a: string)
    ensures !StrLt(a, a)
  {
    if a != [] {
      StrLtIrreflexive(a[1..]);
    }
  }

  lemma {:induction false} StrLtTransitive(a: string, b: string, c: string)
    requires StrLt(a, b) && StrLt(b, c)
    ensures StrLt(a, c)
  {
    if a != [] && b != [] && c != [] && a[0] == b[0] && b[0] == c[0] {
      StrLtTransitive(a[1..], b[1..], c[1..]);
    }
  }

  lemma {:induction false} StrLtTotal(a: string, b: string)
    ensures a == b || StrLt(a, b) || StrLt(b, a)
  {
    if a != [] && b != [] && a[0] == b[0] {
      StrLtTotal(a[1..], b[1..]);
      assert a == [a[0]] + a[1..] && b == [b[0]] + b[1..];
    }
  }

  /** Python's string comparison is a strict total order. */
  lemma StrLtIsStrictTotalOrder()
    ensures StrictTotalOrder(StrLt)
  {
    forall a ensures !StrLt(a, a) {
      StrLtIrreflexive(a);
    }
    forall a, b, c | StrLt(a, b) && StrLt(b, c) ensures StrLt(a, c) {
      StrLtTransitive(a, b, c);
    }
    forall a, b ensures a == b || StrLt(a, b) || StrLt(b, a) {
      StrLtTotal(a, b);
    }
  }

  /** Ordering (store, link) pairs is a strict total order. */
  lemma PairLtIsStrictTotalOrder()
    ensures StrictTotalOrder(PairLt)
  {
    StrLtIsStrictTotalOrder();
  }

  /** Ordering group keys, NaN last, is a strict total order. */
  lemma KeyLtIsStrictTotalOrder()
    ensures StrictTotalOrder(KeyLt)
  {
    forall a ensures !KeyLt(a, a) {
      if a.Some? {
        StrLtIrreflexive(a.value);
      }
    }
    forall a, b, c | KeyLt(a, b) && KeyLt(b, c) ensures KeyLt(a, c) {
      if c.Some? {
        StrLtTransitive(a.value, b.value, c.value);
      }
    }
    forall a, b ensures a == b || KeyLt(a, b) || KeyLt(b, a) {
      if a.Some? && b.Some? {
        StrLtTotal(a.value, b.value);
      }
    }
  }

  /** Puts x in front of the first element of s that is not smaller than x. */
  function Insert<T>(x: T, s: seq<T>, lt: (T, T) -> bool): (r: seq<T>)
    ensures multiset(r) == multiset(s) + multiset{x}
  {
    if s == [] then [x]
    else if lt(s[0], x) then
      assert s == [s[0]] + s[1..];
      [s[0]] + Insert(x, s[1..], lt)
    else [x] + s
  }

  /** Insertion sort: the order of sort_values, sorted() and groupby keys. */
  function Sort<T>(s: seq<T>, lt: (T, T) -> bool): (r: seq<T>)
    ensures multiset(r) == multiset(s)
  {
    if s == [] then []
    else
      assert s == [s[0]] + s[1..];
      Insert(s[0], Sort(s[1..], lt), lt)
  }

  lemma {:induction false} InsertSorted<T(!new)>(x: T, s: seq<T>, lt: (T, T) -> bool)
    requires StrictTotalOrder(lt) && Sorted(s, lt)
    ensures Sorted(Insert(x, s, lt), lt)
  {
    if s != [] && lt(s[0], x) {
      InsertSorted(x, s[1..], lt);
      var r := Insert(x, s[1..], lt);
      assert multiset(r) == multiset(s[1..]) + multiset{x};
      forall k | 0 <= k < |r| ensures !lt(r[k], s[0]) {
        assert r[k] in multiset(r);
        if r[k] != x {
          assert r[k] in s[1..];
        }
      }
    }
  }

  /** The sort's result is sorted and holds the same elements. */
  lemma {:induction false} SortSorted<T(!new)>(s: seq<T>, lt: (T, T) -> bool)
    requires StrictTotalOrder(lt)
    ensures Sorted(Sort(s, lt), lt)
  {
    if s != [] {
      SortSorted(s[1..], lt);
      InsertSorted(s[0], Sort(s[1..], lt), lt);
    }
  }

  /** Sorting what is already sorted changes nothing. */
  lemma {:induction false} SortOfSorted<T>(s: seq<T>, lt: (T, T) -> bool)
    requires Sorted(s, lt)
    ensures Sort(s, lt) == s
  {
    if s != [] {
      assert Sorted(s[1..], lt);
      SortOfSorted(s[1..], lt);
    }
  }

  /** A sorted sequence without repeats is strictly sorted. */
  lemma SortedDistinctIsStrict<T(!new)>(s: seq<T>, lt: (T, T) -> bool)
    requires StrictTotalOrder(lt) && Sorted(s, lt)
    requires forall i, j :: 0 <= i < j < |s| ==> s[i] != s[j]
    ensures StrictlySorted(s, lt)
  {
  }

  /** Two strictly sorted sequences with the same elements are equal: a strictly
      sorted sequence is determined by its set of elements. */
  lemma {:induction false} StrictlySortedUnique<T(!new)>(a: seq<T>, b: seq<T>, lt: (T, T) -> bool)
    requires StrictTotalOrder(lt) && StrictlySorted(a, lt) && StrictlySorted(b, lt)
    requires forall x :: x in a <==> x in b
    ensures a == b
  {
    if a != [] {
      assert a[0] in a;
    }
    if b != [] {
      assert b[0] in b;
    }
    if a != [] && b != [] {
      assert a[0] == b[0] by {
        var k :| 0 <= k < |b| && b[k] == a[0];
        var m :| 0 <= m < |a| && a[m] == b[0];
      }
      forall x ensures x in a[1..] <==> x in b[1..] {
        if x in a[1..] {
          var i :| 1 <= i < |a| && a[i] == x;
          assert lt(a[0], x) && x in b;
          var k :| 0 <= k < |b| && b[k] == x;
          assert k != 0;
        }
        if x in b[1..] {
          var i :| 1 <= i < |b| && b[i] == x;
          assert lt(b[0], x) && x in a;
          var k :| 0 <= k < |a| && a[k] == x;
          assert k != 0;
        }
      }
      StrictlySortedUnique(a[1..], b[1..], lt);
      assert a == [a[0]] + a[1..] && b == [b[0]] + b[1..];
    }
  }

  /** Sorting a sequence without repeats yields a strictly sorted sequence with
      the same elements. */
  lemma SortOfDistinctIsStrict<T(!new)>(s: seq<T>, lt: (T, T) -> bool)
    requires StrictTotalOrder(lt) && NoDup(s)
    ensures StrictlySorted(Sort(s, lt), lt) && NoDup(Sort(s, lt))
    ensures forall x :: x in Sort(s, lt) <==> x in s
  {
    var r := Sort(s, lt);
    SortSorted(s, lt);
    NoDupOfPermutation(s, r);
    SortedDistinctIsStrict(r, lt);
    forall x ensures x in r <==> x in s {
      assert x in r <==> x in multiset(r);
      assert x in s <==> x in multiset(s);
    }
  }

  /** Strictly sorted implies sorted. */
  lemma StrictlySortedIsSorted<T(!new)>(s: seq<T>, lt: (T, T) -> bool)
    requires StrictTotalOrder(lt) && StrictlySorted(s, lt)
    ensures Sorted(s, lt)
  {
  }

  /** An element no smaller than any before it extends a sorted sequence. */
  lemma SortedSnoc<T>(s: seq<T>, x: T, lt: (T, T) -> bool)
    requires Sorted(s, lt) && forall k :: 0 <= k < |s| ==> !lt(x, s[k])
    ensures Sorted(s + [x], lt)
  {
    var r := s + [x];
    forall i, j | 0 <= i < j < |r| ensures !lt(r[j], r[i]) {
      if j == |s| {
        assert r[i] == s[i];
      } else {
        assert r[i] == s[i] && r[j] == s[j];
      }
    }
  }

  /** An element larger than all before it extends a strictly sorted sequence. */
  lemma StrictlySortedSnoc<T>(s: seq<T>, x: T, lt: (T, T) -> bool)
    requires StrictlySorted(s, lt) && forall k :: 0 <= k < |s| ==> lt(s[k], x)
    ensures StrictlySorted(s + [x], lt)
  {
    var r := s + [x];
    forall i, j | 0 <= i < j < |r| ensures lt(r[i], r[j]) {
      if j == |s| {
        assert r[i] == s[i];
      } else {
        assert r[i] == s[i] && r[j] == s[j];
      }
    }
  }
}
