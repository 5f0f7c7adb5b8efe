/**
 Sequence helpers the pipeline is built from: duplicate-free sequences and the
 order-preserving removal of repeats that dict.fromkeys, drop_duplicates()
 (keep="first") and a loop over a "seen" set all perform.
 */
module Sequences {

  /** No element occurs twice. */
  predicate NoDup<T(==)>(s: seq<T>) {
    forall i, j :: 0 <= i < j < |s| ==> s[i] != s[j]
  }

  /** The index of the first occurrence of x in s. */
  function FirstIndex<T(==)>(s: seq<T>, x: T): (i: nat)
    requires x in s
    ensures i < |s| && s[i] == x && x !in s[..i]
  {
    if s[0] == x then 0 else 1 + FirstIndex(s[1..], x)
  }

  /** Every element of s once, at the place of its first occurrence. */
  function Distinct<T(==,!new)>(s: seq<T>): (r: seq<T>)
    ensures NoDup(r)
    ensures forall x :: x in r <==> x in s
    ensures |r| <= |s|
  {
    if s == [] then []
    else
      var d := Distinct(s[..|s| - 1]);
      var x := s[|s| - 1];
      assert s == s[..|s| - 1] + [x];
      if x in d then d else d + [x]
  }

  /** Concatenation of a list of lists, as [v for sub in lists for v in sub]. */
  function Flatten<T(!new)>(ss: seq<seq<T>>): (r: seq<T>)
    ensures forall x :: x in r <==> exists k :: 0 <= k < |ss| && x in ss[k]
  {
    if ss == [] then []
    else
      var r := Flatten(ss[..|ss| - 1]) + ss[|ss| - 1];
      assert forall k :: 0 <= k < |ss| - 1 ==> ss[..|ss| - 1][k] == ss[k];
      r
  }

  /** The positions where flags holds, ascending. */
  function TruePositions(flags: seq<bool>): (idx: seq<nat>)
    ensures forall k :: 0 <= k < |idx| ==> idx[k] < |flags| && flags[idx[k]]
    ensures forall j :: 0 <= j < |flags| && flags[j] ==> j in idx
    ensures forall k, m :: 0 <= k < m < |idx| ==> idx[k] < idx[m]
    ensures |idx| <= |flags|
  {
    if flags == [] then []
    else
      var n := |flags| - 1;
      var p := TruePositions(flags[..n]);
      assert forall j :: 0 <= j < n ==> flags[..n][j] == flags[j];
      if flags[n] then
        var r := p + [n];
        assert forall k :: 0 <= k < |p| ==> r[k] == p[k];
        r
      else p
  }

  /** Extending a selection by one position: when p holds the elements of xs
      at the positions ps, all below n, then p extended with xs[n] (when b)
      holds the elements at ps extended with n. */
  lemma PickSnoc<T>(xs: seq<T>, p: seq<T>, ps: seq<nat>, n: nat, b: bool)
    requires n < |xs| && |p| == |ps|
    requires forall m :: 0 <= m < |ps| ==> ps[m] < n && p[m] == xs[ps[m]]
    ensures var w := p + (if b then [xs[n]] else []);
      var r := ps + (if b then [n] else []);
      |w| == |r| && forall m :: 0 <= m < |r| ==> r[m] < |xs| && w[m] == xs[r[m]]
  {
  }

  /** A sequence without repeats is left as it is. */
  lemma {:induction false} DistinctOfNoDup<T(!new)>(s: seq<T>)
    requires NoDup(s)
    ensures Distinct(s) == s
  {
    if s != [] {
      var p := s[..|s| - 1];
      assert NoDup(p);
      DistinctOfNoDup(p);
      assert s[|s| - 1] !in p;
      assert s == p + [s[|s| - 1]];
    }
  }

  /** Removing repeats twice is the same as removing them once. */
  lemma DistinctIdempotent<T(!new)>(s: seq<T>)
    ensures Distinct(Distinct(s)) == Distinct(s)
  {
    DistinctOfNoDup(Distinct(s));
  }

  /** Taking a prefix that already holds x does not move its first occurrence. */
  lemma FirstIndexOfPrefix<T>(s: seq<T>, n: nat, x: T)
    requires n <= |s| && x in s[..n]
    ensures FirstIndex(s, x) == FirstIndex(s[..n], x)
  {
    assert s[..n][..FirstIndex(s[..n], x)] == s[..FirstIndex(s[..n], x)];
  }

  /** An order by first occurrence in a prefix of s is the same order in s,
      and every element involved occurs before the prefix ends. */
  lemma FirstOrderOfPrefix<T>(s: seq<T>, n: nat, d: seq<T>)
    requires n <= |s|
    requires forall y :: y in d ==> y in s[..n]
    requires forall i, j :: 0 <= i < j < |d| ==>
      FirstIndex(s[..n], d[i]) < FirstIndex(s[..n], d[j])
    ensures forall i :: 0 <= i < |d| ==> d[i] in s && FirstIndex(s, d[i]) < n
    ensures forall i, j :: 0 <= i < j < |d| ==>
      FirstIndex(s, d[i]) < FirstIndex(s, d[j])
  {
    forall i | 0 <= i < |d|
      ensures d[i] in s && FirstIndex(s, d[i]) == FirstIndex(s[..n], d[i]) < n
    {
      assert d[i] in s[..n];
      FirstIndexOfPrefix(s, n, d[i]);
    }
  }

  /** The elements keep the order of their first occurrences in s. */
  lemma {:induction false} DistinctKeepsFirstOccurrenceOrder<T(!new)>(s: seq<T>)
    ensures forall i, j :: 0 <= i < j < |Distinct(s)| ==>
      FirstIndex(s, Distinct(s)[i]) < FirstIndex(s, Distinct(s)[j])
  {
    if s != [] {
      var n := |s| - 1;
      var p := s[..n];
      var d := Distinct(p);
      var x := s[n];
      DistinctKeepsFirstOccurrenceOrder(p);
      FirstOrderOfPrefix(s, n, d);
      if x !in d {
        assert FirstIndex(s, x) == n by {
          assert s[..n] == p;
        }
        assert Distinct(s) == d + [x];
      } else {
        assert Distinct(s) == d;
      }
    }
  }

  /** Without repeats, every element is counted at most once. */
  lemma {:induction false} NoDupCountsOnce<T>(s: seq<T>)
    requires NoDup(s)
    ensures forall x :: multiset(s)[x] <= 1
  {
    if s != [] {
      var p := s[..|s| - 1];
      assert NoDup(p);
      NoDupCountsOnce(p);
      assert s == p + [s[|s| - 1]];
      assert s[|s| - 1] !in p;
    }
  }

  /** A rearrangement of a sequence without repeats has none either. */
  lemma NoDupOfPermutation<T>(a: seq<T>, b: seq<T>)
    requires NoDup(a) && multiset(a) == multiset(b)
    ensures NoDup(b)
  {
    NoDupCountsOnce(a);
    forall i, j | 0 <= i < j < |b| ensures b[i] != b[j] {
      assert b == b[..j] + b[j..];
      assert b[i] in b[..j] && b[j] in b[j..];
      assert multiset(b)[b[j]] == multiset(b[..j])[b[j]] + multiset(b[j..])[b[j]];
    }
  }

  /** x occurs at least twice exactly when two different positions hold it. */
  lemma {:induction false} CountAtLeastTwo<T>(s: seq<T>, x: T)
    ensures multiset(s)[x] >= 2 <==> exists i, j :: 0 <= i < j < |s| && s[i] == x && s[j] == x
  {
    if s != [] {
      var n := |s| - 1;
      var p := s[..n];
      CountAtLeastTwo(p, x);
      assert s == p + [s[n]];
      if s[n] == x && x in p {
        var i :| 0 <= i < n && p[i] == x;
        assert s[i] == x && s[n] == x;
      }
      if exists i, j :: 0 <= i < j < |s| && s[i] == x && s[j] == x {
        var i, j :| 0 <= i < j < |s| && s[i] == x && s[j] == x;
        if j < n {
          assert p[i] == x && p[j] == x;
        } else {
          assert p[i] == x;
        }
      }
    }
  }
}
