/**
 * A stable sort by a total preorder: the model of Python's `list.sort(key=...)`
 * and `sorted(...)` (both stable) and of an SQL `ORDER BY` over rows scanned in
 * id order.
 */
module Sorting {

  /** `le` compares every pair and is transitive (ties are allowed). */
  ghost predicate TotalPreorder<T(!new)>(le: (T, T) -> bool) {
    && (forall x, y :: le(x, y) || le(y, x))
    && (forall x, y, z :: le(x, y) && le(y, z) ==> le(x, z))
  }

  predicate SortedBy<T>(s: seq<T>, le: (T, T) -> bool) {
    forall i, j :: 0 <= i < j < |s| ==> le(s[i], s[j])
  }

  /** Puts `x` after every element of `s` that is not above it. */
  function Insert<T>(x: T, s: seq<T>, le: (T, T) -> bool): (r: seq<T>)
    ensures multiset(r) == multiset(s) + multiset{x}
    ensures |r| == |s| + 1
  {
    if s == [] then [x]
    else if le(s[0], x) then
      var r := [s[0]] + Insert(x, s[1..], le);
      assert s == [s[0]] + s[1..];
      r
    else [x] + s
  }

  /** Insertion sort: each element, in input order, is inserted after its equals. */
  function SortBy<T>(s: seq<T>, le: (T, T) -> bool): (r: seq<T>)
    ensures multiset(r) == multiset(s)
    ensures |r| == |s|
  {
    if s == [] then []
    else
      var r := Insert(s[|s| - 1], SortBy(s[..|s| - 1], le), le);
      assert s == s[..|s| - 1] + [s[|s| - 1]];
      r
  }

  lemma {:induction false} InsertSorted<T(!new)>(x: T, s: seq<T>, le: (T, T) -> bool)
    requires TotalPreorder(le) && SortedBy(s, le)
    ensures SortedBy(Insert(x, s, le), le)
  {
    if s != [] {
      if le(s[0], x) {
        InsertSorted(x, s[1..], le);
        var tail := Insert(x, s[1..], le);
        forall j | 0 <= j < |tail| ensures le(s[0], tail[j]) {
          assert tail[j] in multiset(tail);
          if tail[j] != x {
            assert tail[j] in multiset(s[1..]);
            var k :| 0 <= k < |s[1..]| && s[1..][k] == tail[j];
            assert s[k + 1] == tail[j];
          }
        }
      } else {
        assert le(x, s[0]);
        forall j | 0 <= j < |s| ensures le(x, s[j]) {
          if j > 0 { assert le(s[0], s[j]); }
        }
      }
    }
  }

  /** The sort yields an ordered permutation of its input. */
  lemma {:induction false} SortBySorted<T(!new)>(s: seq<T>, le: (T, T) -> bool)
    requires TotalPreorder(le)
    ensures SortedBy(SortBy(s, le), le)
  {
    if s != [] {
      SortBySorted(s[..|s| - 1], le);
      InsertSorted(s[|s| - 1], SortBy(s[..|s| - 1], le), le);
    }
  }

  predicate Equivalent<T>(a: T, b: T, le: (T, T) -> bool) {
    le(a, b) && le(b, a)
  }

  /** The elements of `s` that tie with `k`, in their order in `s`. */
  function TiesWith<T>(s: seq<T>, k: T, le: (T, T) -> bool): seq<T> {
    if s == [] then []
    else (if Equivalent(s[0], k, le) then [s[0]] else []) + TiesWith(s[1..], k, le)
  }

  lemma {:induction false} TiesWithAppend<T>(a: seq<T>, b: seq<T>, k: T, le: (T, T) -> bool)
    ensures TiesWith(a + b, k, le) == TiesWith(a, k, le) + TiesWith(b, k, le)
  {
    if a == [] {
      assert a + b == b;
    } else {
      assert (a + b)[0] == a[0] && (a + b)[1..] == a[1..] + b;
      TiesWithAppend(a[1..], b, k, le);
    }
  }

  lemma {:induction false} TiesWithNone<T>(s: seq<T>, k: T, le: (T, T) -> bool)
    requires forall i :: 0 <= i < |s| ==> !Equivalent(s[i], k, le)
    ensures TiesWith(s, k, le) == []
  {
    if s != [] {
      TiesWithNone(s[1..], k, le);
    }
  }

  lemma {:induction false} InsertStable<T(!new)>(x: T, s: seq<T>, k: T, le: (T, T) -> bool)
    requires TotalPreorder(le) && SortedBy(s, le)
    ensures TiesWith(Insert(x, s, le), k, le)
         == TiesWith(s, k, le) + (if Equivalent(x, k, le) then [x] else [])
  {
    if s == [] {
      TiesWithCons(x, [], k, le);
    } else if le(s[0], x) {
      var tail := Insert(x, s[1..], le);
      assert SortedBy(s[1..], le);
      InsertStable(x, s[1..], k, le);
      TiesWithCons(s[0], tail, k, le);
      TiesWithCons(s[0], s[1..], k, le);
      assert [s[0]] + s[1..] == s;
    } else {
      TiesWithCons(x, s, k, le);
      if Equivalent(x, k, le) {
        NoTiesAbove(x, s, k, le);
      }
    }
  }

  lemma TiesWithCons<T>(y: T, s: seq<T>, k: T, le: (T, T) -> bool)
    ensures TiesWith([y] + s, k, le) == (if Equivalent(y, k, le) then [y] else []) + TiesWith(s, k, le)
  {
    assert ([y] + s)[0] == y && ([y] + s)[1..] == s;
  }

  /** When `x` sorts before all of `s`, nothing in `s` ties with an equal of `x`. */
  lemma NoTiesAbove<T(!new)>(x: T, s: seq<T>, k: T, le: (T, T) -> bool)
    requires TotalPreorder(le) && SortedBy(s, le)
    requires s != [] && !le(s[0], x) && Equivalent(x, k, le)
    ensures TiesWith(s, k, le) == []
  {
    forall i | 0 <= i < |s| ensures !le(s[i], x) {
      if i > 0 { assert le(s[0], s[i]); }
    }
    TiesWithNone(s, k, le);
  }

  /** Stability: the sort keeps every group of tying elements in input order. */
  lemma {:induction false} SortByStable<T(!new)>(s: seq<T>, k: T, le: (T, T) -> bool)
    requires TotalPreorder(le)
    ensures TiesWith(SortBy(s, le), k, le) == TiesWith(s, k, le)
  {
    if s != [] {
      var init, x := s[..|s| - 1], s[|s| - 1];
      var sortedInit := SortBy(init, le);
      SortByStable(init, k, le);
      SortBySorted(init, le);
      InsertStable(x, sortedInit, k, le);
      TiesWithSnoc(s, k, le);
    }
  }

  lemma TiesWithSnoc<T>(s: seq<T>, k: T, le: (T, T) -> bool)
    requires s != []
    ensures TiesWith(s, k, le)
         == TiesWith(s[..|s| - 1], k, le) + (if Equivalent(s[|s| - 1], k, le) then [s[|s| - 1]] else [])
  {
    var init, x := s[..|s| - 1], s[|s| - 1];
    assert s == init + [x];
    TiesWithAppend(init, [x], k, le);
    assert TiesWith([x], k, le) == (if Equivalent(x, k, le) then [x] else []) + TiesWith([x][1..], k, le);
  }

  /** The sort only rearranges: each of its elements comes from the input. */
  lemma SortByMembers<T>(s: seq<T>, le: (T, T) -> bool)
    ensures forall i :: 0 <= i < |SortBy(s, le)| ==> SortBy(s, le)[i] in s
  {
    var r := SortBy(s, le);
    forall i | 0 <= i < |r| ensures r[i] in s {
      assert r[i] in multiset(r);
    }
  }
}
