/**
 * Python's `sorted(xs, key=...)`: a stable sort, written as an insertion sort
 * over a real-valued key. A sort by `reverse=True` is the same sort over the
 * negated key, since Python keeps equal elements in their original order in
 * both directions.
 */
module Sorting {

  /** `x` goes in front of the first element whose key is not smaller, so it stays ahead of its equals. */
  function Insert<T>(x: T, s: seq<T>, key: T -> real): (r: seq<T>)
    ensures |r| == |s| + 1
    decreases |s|
  {
    if s == [] || key(x) <= key(s[0]) then [x] + s else [s[0]] + Insert(x, s[1..], key)
  }

  function SortByKey<T>(s: seq<T>, key: T -> real): (r: seq<T>)
    ensures |r| == |s|
    decreases |s|
  {
    if s == [] then [] else Insert(s[0], SortByKey(s[1..], key), key)
  }

  predicate SortedByKey<T>(s: seq<T>, key: T -> real) {
    forall i, j :: 0 <= i < j < |s| ==> key(s[i]) <= key(s[j])
  }

  /**
   * Sorted by key, and among equal keys in increasing `rank`: when the input
   * is in increasing rank, this is what stability means.
   */
  predicate SortedThenRanked<T>(s: seq<T>, key: T -> real, rank: T -> int) {
    forall i, j :: 0 <= i < j < |s| ==>
      key(s[i]) < key(s[j]) || (key(s[i]) == key(s[j]) && rank(s[i]) < rank(s[j]))
  }

  lemma {:induction false} InsertPermutes<T>(x: T, s: seq<T>, key: T -> real)
    ensures multiset(Insert(x, s, key)) == multiset(s) + multiset{x}
    decreases |s|
  {
    if s != [] && key(x) > key(s[0]) {
      InsertPermutes(x, s[1..], key);
      assert s == [s[0]] + s[1..];
    }
  }

  lemma {:induction false} InsertSorted<T>(x: T, s: seq<T>, key: T -> real)
    requires SortedByKey(s, key)
    ensures SortedByKey(Insert(x, s, key), key)
    decreases |s|
  {
    if s != [] && key(x) > key(s[0]) {
      InsertSorted(x, s[1..], key);
      var t := Insert(x, s[1..], key);
      InsertMembers(x, s[1..], key);
      assert forall k :: 0 <= k < |t| ==> key(s[0]) <= key(t[k]);
    }
  }

  /** Every element of `Insert(x, s)` is `x` or an element of `s`. */
  lemma {:induction false} InsertMembers<T>(x: T, s: seq<T>, key: T -> real)
    ensures forall k :: 0 <= k < |Insert(x, s, key)| ==>
      Insert(x, s, key)[k] == x || exists m :: 0 <= m < |s| && Insert(x, s, key)[k] == s[m]
    decreases |s|
  {
    if s != [] && key(x) > key(s[0]) {
      InsertMembers(x, s[1..], key);
      var t := Insert(x, s[1..], key);
      forall k | 1 <= k < |t| + 1
        ensures Insert(x, s, key)[k] == x || exists m :: 0 <= m < |s| && Insert(x, s, key)[k] == s[m]
      {
        assert Insert(x, s, key)[k] == t[k - 1];
        if t[k - 1] != x {
          var m :| 0 <= m < |s[1..]| && t[k - 1] == s[1..][m];
          assert t[k - 1] == s[m + 1];
        }
      }
      assert Insert(x, s, key)[0] == s[0];
    } else {
      assert forall k :: 1 <= k < |s| + 1 ==> Insert(x, s, key)[k] == s[k - 1];
    }
  }

  /** The sort returns a sorted permutation of its input. */
  lemma {:induction false} SortByKeySpec<T>(s: seq<T>, key: T -> real)
    ensures multiset(SortByKey(s, key)) == multiset(s)
    ensures SortedByKey(SortByKey(s, key), key)
    decreases |s|
  {
    if s != [] {
      SortByKeySpec(s[1..], key);
      InsertPermutes(s[0], SortByKey(s[1..], key), key);
      InsertSorted(s[0], SortByKey(s[1..], key), key);
      assert s == [s[0]] + s[1..];
    }
  }

  lemma {:induction false} InsertRanked<T>(x: T, s: seq<T>, key: T -> real, rank: T -> int)
    requires SortedThenRanked(s, key, rank)
    requires forall k :: 0 <= k < |s| ==> rank(x) < rank(s[k])
    ensures SortedThenRanked(Insert(x, s, key), key, rank)
    decreases |s|
  {
    InsertMembers(x, s, key);
    if s != [] && key(x) > key(s[0]) {
      InsertRanked(x, s[1..], key, rank);
      var t := Insert(x, s[1..], key);
      InsertMembers(x, s[1..], key);
      forall k | 0 <= k < |t|
        ensures key(s[0]) < key(t[k]) || (key(s[0]) == key(t[k]) && rank(s[0]) < rank(t[k]))
      {
        if t[k] != x {
          var m :| 0 <= m < |s[1..]| && t[k] == s[1..][m];
          assert t[k] == s[m + 1];
        }
      }
    }
  }

  lemma {:induction false} SortMembers<T>(s: seq<T>, key: T -> real)
    ensures forall k :: 0 <= k < |SortByKey(s, key)| ==> SortByKey(s, key)[k] in s
  {
    SortByKeySpec(s, key);
    forall k | 0 <= k < |SortByKey(s, key)|
      ensures SortByKey(s, key)[k] in s
    {
      assert SortByKey(s, key)[k] in multiset(SortByKey(s, key));
    }
  }

  /** Stability: an input in strictly increasing rank comes out ordered by key, then by rank. */
  lemma {:induction false} SortByKeyStable<T>(s: seq<T>, key: T -> real, rank: T -> int)
    requires forall i, j :: 0 <= i < j < |s| ==> rank(s[i]) < rank(s[j])
    ensures SortedThenRanked(SortByKey(s, key), key, rank)
    decreases |s|
  {
    if s != [] {
      var tail := s[1..];
      SortByKeyStable(tail, key, rank);
      SortMembers(tail, key);
      var t := SortByKey(tail, key);
      forall k | 0 <= k < |t|
        ensures rank(s[0]) < rank(t[k])
      {
        var m :| 0 <= m < |tail| && t[k] == tail[m];
        assert tail[m] == s[m + 1];
      }
      InsertRanked(s[0], t, key, rank);
    }
  }

  /** No two elements share a key. */
  predicate DistinctKeys<T>(s: seq<T>, key: T -> real) {
    forall i, j :: 0 <= i < j < |s| ==> key(s[i]) != key(s[j])
  }

  lemma {:induction false} InsertDistinct<T>(x: T, s: seq<T>, key: T -> real)
    requires DistinctKeys(s, key)
    requires forall k :: 0 <= k < |s| ==> key(x) != key(s[k])
    ensures DistinctKeys(Insert(x, s, key), key)
    decreases |s|
  {
    if s != [] && key(x) > key(s[0]) {
      InsertDistinct(x, s[1..], key);
      var t := Insert(x, s[1..], key);
      InsertMembers(x, s[1..], key);
      forall k | 0 <= k < |t|
        ensures key(s[0]) != key(t[k])
      {
        if t[k] != x {
          var m :| 0 <= m < |s[1..]| && t[k] == s[1..][m];
          assert t[k] == s[m + 1];
        }
      }
      assert Insert(x, s, key) == [s[0]] + t;
    } else {
      assert forall k :: 1 <= k < |s| + 1 ==> Insert(x, s, key)[k] == s[k - 1];
    }
  }

  /** Sorting keeps the keys distinct. */
  lemma {:induction false} SortDistinctKeys<T>(s: seq<T>, key: T -> real)
    requires DistinctKeys(s, key)
    ensures DistinctKeys(SortByKey(s, key), key)
    decreases |s|
  {
    if s != [] {
      var tail := s[1..];
      SortDistinctKeys(tail, key);
      SortMembers(tail, key);
      var t := SortByKey(tail, key);
      forall k | 0 <= k < |t|
        ensures key(s[0]) != key(t[k])
      {
        var m :| 0 <= m < |tail| && t[k] == tail[m];
        assert tail[m] == s[m + 1];
      }
      InsertDistinct(s[0], t, key);
    }
  }
}
