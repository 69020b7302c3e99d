/**
 * Python's `sorted(xs, key=k)`: a stable sort, ascending by an integer key.
 * `sorted(xs, key=k, reverse=True)` is also stable, so it is the same as
 * sorting ascending by the negated key; both call sites are written that way.
 */
module Sorting {

  predicate SortedBy<T>(s: seq<T>, key: T -> int)
  {
    forall i, j :: 0 <= i < j < |s| ==> key(s[i]) <= key(s[j])
  }

  /** The elements of `s` whose key is `k`, in their order in `s`. */
  function WithKey<T>(s: seq<T>, key: T -> int, k: int): seq<T>
  {
    if s == [] then []
    else (if key(s[0]) == k then [s[0]] else []) + WithKey(s[1..], key, k)
  }

  /** Places `e` in front of the first element whose key is not below its own. */
  function InsertBy<T>(e: T, s: seq<T>, key: T -> int): (r: seq<T>)
    ensures |r| == |s| + 1
  {
    if s == [] then [e]
    else if key(s[0]) < key(e) then [s[0]] + InsertBy(e, s[1..], key)
    else [e] + s
  }

  /** `sorted(s, key=key)`, as an insertion sort. */
  function SortBy<T>(s: seq<T>, key: T -> int): (r: seq<T>)
    ensures |r| == |s|
  {
    if s == [] then [] else InsertBy(s[0], SortBy(s[1..], key), key)
  }

  lemma {:induction false} InsertByPermutes<T>(e: T, s: seq<T>, key: T -> int)
    ensures multiset(InsertBy(e, s, key)) == multiset(s) + multiset{e}
  {
    if s != [] && key(s[0]) < key(e) {
      InsertByPermutes(e, s[1..], key);
      assert s == [s[0]] + s[1..];
    }
  }

  /** `SortBy` returns a permutation of its input. */
  lemma {:induction false} SortByPermutes<T>(s: seq<T>, key: T -> int)
    ensures multiset(SortBy(s, key)) == multiset(s)
  {
    if s != [] {
      SortByPermutes(s[1..], key);
      InsertByPermutes(s[0], SortBy(s[1..], key), key);
      assert s == [s[0]] + s[1..];
    }
  }

  /** A prefix of a sorted sequence is sorted. */
  lemma SortedPrefix<T>(s: seq<T>, p: seq<T>, key: T -> int)
    requires SortedBy(s, key) && |p| <= |s| && p == s[..|p|]
    ensures SortedBy(p, key)
  {
    forall i, j | 0 <= i < j < |p| ensures key(p[i]) <= key(p[j]) {
      assert p[i] == s[i] && p[j] == s[j];
    }
  }

  lemma SortedTail<T>(s: seq<T>, key: T -> int)
    requires SortedBy(s, key) && s != []
    ensures SortedBy(s[1..], key)
  {
    forall i, j | 0 <= i < j < |s[1..]| ensures key(s[1..][i]) <= key(s[1..][j]) {
      assert s[1..][i] == s[i + 1] && s[1..][j] == s[j + 1];
    }
  }

  lemma {:induction false} InsertByMembers<T>(e: T, s: seq<T>, key: T -> int, x: T)
    requires x in InsertBy(e, s, key)
    ensures x == e || x in s
  {
    if s != [] && key(s[0]) < key(e) {
      var rest := InsertBy(e, s[1..], key);
      if x != s[0] {
        assert x in rest;
        InsertByMembers(e, s[1..], key, x);
      }
    }
  }

  /** A sequence whose head is at most every later key, and whose tail is sorted, is sorted. */
  lemma SortedCons<T>(x: T, s: seq<T>, key: T -> int)
    requires SortedBy(s, key)
    requires forall y :: y in s ==> key(x) <= key(y)
    ensures SortedBy([x] + s, key)
  {
    var r := [x] + s;
    forall i, j | 0 <= i < j < |r|
      ensures key(r[i]) <= key(r[j])
    {
      assert r[j] == s[j - 1];
      if i > 0 {
        assert r[i] == s[i - 1];
      }
    }
  }

  lemma {:induction false} InsertBySorted<T>(e: T, s: seq<T>, key: T -> int)
    requires SortedBy(s, key)
    ensures SortedBy(InsertBy(e, s, key), key)
  {
    if s == [] {
    } else if key(s[0]) < key(e) {
      SortedTail(s, key);
      InsertBySorted(e, s[1..], key);
      var rest := InsertBy(e, s[1..], key);
      forall y | y in rest
        ensures key(s[0]) <= key(y)
      {
        InsertByMembers(e, s[1..], key, y);
        if y != e {
          var j :| 0 <= j < |s[1..]| && s[1..][j] == y;
          assert s[j + 1] == y;
        }
      }
      SortedCons(s[0], rest, key);
    } else {
      forall y | y in s
        ensures key(e) <= key(y)
      {
        var j :| 0 <= j < |s| && s[j] == y;
        assert key(s[0]) <= key(s[j]);
      }
      SortedCons(e, s, key);
    }
  }

  /** The result of `SortBy` is ordered by key. */
  lemma {:induction false} SortByIsSorted<T>(s: seq<T>, key: T -> int)
    ensures SortedBy(SortBy(s, key), key)
  {
    if s != [] {
      SortByIsSorted(s[1..], key);
      InsertBySorted(s[0], SortBy(s[1..], key), key);
    }
  }

  lemma WithKeyCons<T>(x: T, s: seq<T>, key: T -> int, k: int)
    ensures WithKey([x] + s, key, k) == (if key(x) == k then [x] else []) + WithKey(s, key, k)
  {
    assert ([x] + s)[1..] == s;
  }

  lemma {:induction false} WithKeyInsertBy<T>(e: T, s: seq<T>, key: T -> int, k: int)
    ensures WithKey(InsertBy(e, s, key), key, k)
         == (if key(e) == k then [e] else []) + WithKey(s, key, k)
  {
    if s == [] {
      WithKeyCons(e, [], key, k);
    } else if key(s[0]) < key(e) {
      var rest := InsertBy(e, s[1..], key);
      WithKeyInsertBy(e, s[1..], key, k);
      assert InsertBy(e, s, key) == [s[0]] + rest;
      WithKeyCons(s[0], rest, key, k);
      assert s == [s[0]] + s[1..];
      WithKeyCons(s[0], s[1..], key, k);
      var front := if key(s[0]) == k then [s[0]] else [];
      var mid := if key(e) == k then [e] else [];
      var tail := WithKey(s[1..], key, k);
      assert front == [] || mid == [];
      assert front + (mid + tail) == mid + (front + tail);
    } else {
      WithKeyCons(e, s, key, k);
    }
  }

  /** Stability: elements with equal keys keep their relative order. */
  lemma {:induction false} SortByIsStable<T>(s: seq<T>, key: T -> int, k: int)
    ensures WithKey(SortBy(s, key), key, k) == WithKey(s, key, k)
  {
    if s != [] {
      SortByIsStable(s[1..], key, k);
      WithKeyInsertBy(s[0], SortBy(s[1..], key), key, k);
    }
  }
}
