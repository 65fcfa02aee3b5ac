/** The stable sort of the standard library, and what stability gives a ranking. */
module Sorting {

  ghost predicate TotalPreorder<T(!new)>(le: (T, T) -> bool) {
    && (forall a, b :: le(a, b) || le(b, a))
    && (forall a, b, c :: le(a, b) && le(b, c) ==> le(a, c))
  }

  ghost predicate Sorted<T>(s: seq<T>, le: (T, T) -> bool) {
    forall i, j :: 0 <= i < j < |s| ==> le(s[i], s[j])
  }

  /** `a` occurs somewhere in front of `b`. */
  ghost predicate Before<T>(s: seq<T>, a: T, b: T) {
    exists i, j :: 0 <= i < j < |s| && s[i] == a && s[j] == b
  }

  ghost predicate NoDuplicates<T>(s: seq<T>) {
    forall i, j :: 0 <= i < j < |s| ==> s[i] != s[j]
  }

  /** `x` goes behind everything that may stand in front of it. */
  function Insert<T>(s: seq<T>, x: T, le: (T, T) -> bool): seq<T> {
    if s == [] || le(s[|s| - 1], x) then s + [x]
    else Insert(s[..|s| - 1], x, le) + [s[|s| - 1]]
  }

  function StableSort<T>(s: seq<T>, le: (T, T) -> bool): seq<T> {
    if s == [] then [] else Insert(StableSort(s[..|s| - 1], le), s[|s| - 1], le)
  }

  lemma {:induction false} InsertElements<T>(s: seq<T>, x: T, le: (T, T) -> bool)
    ensures multiset(Insert(s, x, le)) == multiset(s) + multiset{x}
    ensures |Insert(s, x, le)| == |s| + 1
  {
    if s != [] && !le(s[|s| - 1], x) {
      InsertElements(s[..|s| - 1], x, le);
      assert s == s[..|s| - 1] + [s[|s| - 1]];
    }
  }

  lemma {:induction false} SortElements<T>(s: seq<T>, le: (T, T) -> bool)
    ensures multiset(StableSort(s, le)) == multiset(s)
    ensures |StableSort(s, le)| == |s|
  {
    if s != [] {
      var n := |s| - 1;
      var t := StableSort(s[..n], le);
      SortElements(s[..n], le);
      InsertElements(t, s[n], le);
      hide Insert;
      assert StableSort(s, le) == Insert(t, s[n], le);
      hide StableSort;
      assert s == s[..n] + [s[n]];
    }
  }

  lemma SameElements<T>(s: seq<T>, t: seq<T>)
    requires multiset(s) == multiset(t)
    ensures forall x :: x in s <==> x in t
  {
    forall x
      ensures x in s <==> x in t
    {
      assert x in s <==> x in multiset(s);
      assert x in t <==> x in multiset(t);
    }
  }

  lemma SortedWithLast<T>(s: seq<T>, x: T, le: (T, T) -> bool)
    requires Sorted(s, le) && forall i :: 0 <= i < |s| ==> le(s[i], x)
    ensures Sorted(s + [x], le)
  {
  }

  lemma {:induction false} InsertSorts<T(!new)>(s: seq<T>, x: T, le: (T, T) -> bool)
    requires TotalPreorder(le) && Sorted(s, le)
    ensures Sorted(Insert(s, x, le), le)
  {
    var n := |s| - 1;
    if s == [] || le(s[n], x) {
      forall i | 0 <= i < |s|
        ensures le(s[i], x)
      {
        assert i < n ==> le(s[i], s[n]);
      }
      SortedWithLast(s, x, le);
    } else {
      var t := Insert(s[..n], x, le);
      InsertSorts(s[..n], x, le);
      InsertElements(s[..n], x, le);
      hide Insert;
      forall i | 0 <= i < |t|
        ensures le(t[i], s[n])
      {
        assert t[i] in multiset(t);
        assert t[i] == x || t[i] in s[..n];
      }
      SortedWithLast(t, s[n], le);
    }
  }

  lemma {:induction false} SortSorts<T(!new)>(s: seq<T>, le: (T, T) -> bool)
    requires TotalPreorder(le)
    ensures Sorted(StableSort(s, le), le)
  {
    if s != [] {
      SortSorts(s[..|s| - 1], le);
      InsertSorts(StableSort(s[..|s| - 1], le), s[|s| - 1], le);
    }
  }

  lemma InsertLast<T>(s: seq<T>, x: T, le: (T, T) -> bool)
    requires s == [] || le(s[|s| - 1], x)
    ensures Insert(s, x, le) == s + [x]
  {
  }

  /** Sorting what is sorted changes nothing. */
  lemma {:induction false} SortedIsFixed<T>(s: seq<T>, le: (T, T) -> bool)
    requires Sorted(s, le)
    ensures StableSort(s, le) == s
  {
    hide Insert;
    if s != [] {
      var n := |s| - 1;
      SortedIsFixed(s[..n], le);
      assert n > 0 ==> le(s[n - 1], s[n]);
      InsertLast(s[..n], s[n], le);
      assert s == s[..n] + [s[n]];
    }
  }

  lemma {:induction false} InsertKeepsBefore<T>(s: seq<T>, x: T, le: (T, T) -> bool, a: T, b: T)
    requires Before(s, a, b)
    ensures Before(Insert(s, x, le), a, b)
  {
    var i, j :| 0 <= i < j < |s| && s[i] == a && s[j] == b;
    var n := |s| - 1;
    if le(s[n], x) {
      assert (s + [x])[i] == a && (s + [x])[j] == b;
    } else {
      var t := Insert(s[..n], x, le);
      InsertElements(s[..n], x, le);
      if j < n {
        assert s[..n][i] == a && s[..n][j] == b;
        InsertKeepsBefore(s[..n], x, le, a, b);
        var i', j' :| 0 <= i' < j' < |t| && t[i'] == a && t[j'] == b;
        assert (t + [s[n]])[i'] == a && (t + [s[n]])[j'] == b;
      } else {
        assert a in s[..n];
        assert a in multiset(t);
        var i' :| 0 <= i' < |t| && t[i'] == a;
        assert (t + [s[n]])[i'] == a && (t + [s[n]])[n + 1] == b;
      }
    }
  }

  lemma {:induction false} InsertBehind<T>(s: seq<T>, x: T, le: (T, T) -> bool, a: T)
    requires a in s && le(a, x)
    ensures Before(Insert(s, x, le), a, x)
  {
    var n := |s| - 1;
    var i :| 0 <= i < |s| && s[i] == a;
    if le(s[n], x) {
      assert (s + [x])[i] == a && (s + [x])[n + 1] == x;
    } else {
      assert s[..n][i] == a;
      InsertBehind(s[..n], x, le, a);
      var t := Insert(s[..n], x, le);
      var i', j' :| 0 <= i' < j' < |t| && t[i'] == a && t[j'] == x;
      assert (t + [s[n]])[i'] == a && (t + [s[n]])[j'] == x;
    }
  }

  /** Stability: what stood in front and may stay in front does. */
  lemma {:induction false} SortIsStable<T>(s: seq<T>, le: (T, T) -> bool, a: T, b: T)
    requires Before(s, a, b) && le(a, b)
    ensures Before(StableSort(s, le), a, b)
  {
    var n := |s| - 1;
    BeforeTheLast(s, a, b);
    var t := StableSort(s[..n], le);
    assert StableSort(s, le) == Insert(t, s[n], le);
    hide StableSort, Insert, Before;
    if Before(s[..n], a, b) {
      SortIsStable(s[..n], le, a, b);
      InsertKeepsBefore(t, s[n], le, a, b);
    } else {
      SortElements(s[..n], le);
      SameElements(t, s[..n]);
      InsertBehind(t, b, le, a);
    }
  }

  lemma BeforeTheLast<T>(s: seq<T>, a: T, b: T)
    requires Before(s, a, b)
    ensures s != [] && (Before(s[..|s| - 1], a, b) || (a in s[..|s| - 1] && b == s[|s| - 1]))
  {
    var n := |s| - 1;
    var i, j :| 0 <= i < j < |s| && s[i] == a && s[j] == b;
    assert s[..n][i] == a;
    if j < n {
      assert s[..n][j] == b;
    }
  }

  lemma LaterIsNotBefore<T>(s: seq<T>, i: nat, j: nat)
    requires NoDuplicates(s) && i < j < |s|
    ensures !Before(s, s[j], s[i])
  {
  }

  lemma SortKeepsDistinct<T>(s: seq<T>, le: (T, T) -> bool)
    requires NoDuplicates(s)
    ensures NoDuplicates(StableSort(s, le))
  {
    var t := StableSort(s, le);
    SortElements(s, le);
    DistinctOnce(s);
    OnceDistinct(t);
  }

  lemma {:induction false} DistinctOnce<T>(s: seq<T>)
    requires NoDuplicates(s)
    ensures forall x :: multiset(s)[x] <= 1
  {
    if s != [] {
      var n := |s| - 1;
      DistinctOnce(s[..n]);
      assert s == s[..n] + [s[n]];
      assert s[n] !in s[..n];
    }
  }

  lemma CountedTwice<T>(s: seq<T>, i: int, j: int)
    requires 0 <= i < j < |s| && s[i] == s[j]
    ensures multiset(s)[s[i]] >= 2
  {
    assert s == s[..j] + s[j..];
    assert s[..j][i] == s[i] && s[j..][0] == s[j];
  }

  lemma OnceDistinct<T>(s: seq<T>)
    requires forall x :: multiset(s)[x] <= 1
    ensures NoDuplicates(s)
  {
    forall i, j | 0 <= i < j < |s|
      ensures s[i] != s[j]
    {
      if s[i] == s[j] {
        CountedTwice(s, i, j);
      }
    }
  }

  /** A prefix that holds `b` holds everything in front of it. */
  lemma PrefixHolds<T>(s: seq<T>, n: nat, a: T, b: T)
    requires n <= |s| && NoDuplicates(s) && Before(s, a, b) && b in s[..n]
    ensures a in s[..n]
  {
    var i, j :| 0 <= i < j < |s| && s[i] == a && s[j] == b;
    var k :| 0 <= k < n && s[..n][k] == b;
    assert k == j;
    assert s[..n][i] == a;
  }

  /** Every value of the map, sorted, the keys taken in any order. */
  method SortValues<K(==), T>(m: map<K, seq<T>>, le: (T, T) -> bool) returns (sorted: map<K, seq<T>>)
    ensures sorted.Keys == m.Keys
    ensures forall k :: k in m ==> sorted[k] == StableSort(m[k], le)
  {
    sorted := m;
    var rest := m.Keys;
    while rest != {}
      invariant rest <= m.Keys && sorted.Keys == m.Keys
      invariant forall k :: k in m ==> sorted[k] == if k in rest then m[k] else StableSort(m[k], le)
      decreases |rest|
    {
      var k :| k in rest;
      sorted := sorted[k := StableSort(sorted[k], le)];
      rest := rest - {k};
    }
  }
}
