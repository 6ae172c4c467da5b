/** The `order(column, { ascending })` clause of a store query. The store
    promises an order on the key and nothing about rows with equal keys, so
    the contracts below say only "sorted" and "same rows"; the insertion sort
    is one way of meeting them. A descending order is an ascending order on
    the negated key. */
module Sorting {

  predicate SortedBy<T>(s: seq<T>, key: T -> int) {
    forall i, j :: 0 <= i < j < |s| ==> key(s[i]) <= key(s[j])
  }

  /** Puts `x` in front of the first element whose key is not smaller. */
  function InsertBy<T(==)>(x: T, s: seq<T>, key: T -> int): (r: seq<T>)
    requires SortedBy(s, key)
    ensures SortedBy(r, key)
    ensures multiset(r) == multiset(s) + multiset{x}
  {
    if |s| == 0 then [x]
    else if key(x) <= key(s[0]) then
      SortedCons(x, s, key);
      [x] + s
    else
      var tail := InsertBy(x, s[1..], key);
      assert s == [s[0]] + s[1..];
      LowerBound(s[0], x, s[1..], tail, key);
      SortedCons(s[0], tail, key);
      [s[0]] + tail
  }

  /** A key no larger than every key of a sorted sequence can go in front. */
  lemma SortedCons<T>(first: T, s: seq<T>, key: T -> int)
    requires SortedBy(s, key)
    requires forall k :: 0 <= k < |s| ==> key(first) <= key(s[k])
    ensures SortedBy([first] + s, key)
  {
  }

  /** A key below `x`'s and below every key of `s` is below every key of a
      rearrangement of `s` with `x` added. */
  lemma LowerBound<T>(first: T, x: T, s: seq<T>, r: seq<T>, key: T -> int)
    requires key(first) <= key(x)
    requires forall k :: 0 <= k < |s| ==> key(first) <= key(s[k])
    requires multiset(r) == multiset(s) + multiset{x}
    ensures forall k :: 0 <= k < |r| ==> key(first) <= key(r[k])
  {
    forall k | 0 <= k < |r| ensures key(first) <= key(r[k]) {
      assert r[k] in multiset(r);
      if r[k] != x {
        assert r[k] in multiset(s);
        var j :| 0 <= j < |s| && s[j] == r[k];
      }
    }
  }

  /** The rows of `s` ordered by `key`, smallest first. */
  function SortBy<T(==)>(s: seq<T>, key: T -> int): (r: seq<T>)
    ensures SortedBy(r, key)
    ensures multiset(r) == multiset(s)
  {
    if |s| == 0 then []
    else
      assert s == [s[0]] + s[1..];
      InsertBy(s[0], SortBy(s[1..], key), key)
  }
}
