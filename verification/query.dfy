/** The exact-match reads of the store: `eq` filters, `count: 'exact'`, and
    `.single()`, which yields a row only when exactly one row matches (the
    store reports both "none" and "several" with the code PGRST116). */
module Query {
  import opened Common

  /** The rows satisfying `p`, in table order. */
  function Select<T(==,!new)>(s: seq<T>, p: T -> bool): (r: seq<T>)
    ensures forall x {:trigger multiset(r)[x]} :: multiset(r)[x] == if p(x) then multiset(s)[x] else 0
    ensures forall x {:trigger x in r} :: x in r <==> x in s && p(x)
    ensures |r| <= |s|
  {
    if |s| == 0 then []
    else
      var init := s[..|s| - 1];
      var last := s[|s| - 1];
      assert s == init + [last];
      Select(init, p) + (if p(last) then [last] else [])
  }

  /** `select('*', { count: 'exact', head: true })` with the filter `p`. */
  function Count<T(==,!new)>(s: seq<T>, p: T -> bool): nat {
    |Select(s, p)|
  }

  /** `.single()`: the matching row when it is the only one. */
  function Single<T(==,!new)>(s: seq<T>, p: T -> bool): (r: Option<T>)
    ensures r.Some? <==> Count(s, p) == 1
    ensures r.Some? ==> r.value in s && p(r.value)
    ensures r.Some? ==> forall x :: x in s && p(x) ==> x == r.value
  {
    var m := Select(s, p);
    if |m| == 1 then
      assert m[0] in m;
      assert forall x :: x in s && p(x) ==> x in m by {
        forall x | x in s && p(x) ensures x in m {
          assert x in m <==> x in s && p(x);
        }
      }
      Some(m[0])
    else None
  }

  /** Appending a row adds one to every count whose filter it passes. */
  lemma CountAppend<T(!new)>(s: seq<T>, x: T, p: T -> bool)
    ensures Count(s + [x], p) == Count(s, p) + (if p(x) then 1 else 0)
  {
    assert (s + [x])[..|s|] == s;
  }

  /** Counts of rows that pass exactly when some other row passes agree. */
  lemma {:induction false} CountPointwise<T(!new), U(!new)>(s: seq<T>, t: seq<U>, p: T -> bool, q: U -> bool)
    requires |s| == |t|
    requires forall i :: 0 <= i < |s| ==> (p(s[i]) <==> q(t[i]))
    ensures Count(s, p) == Count(t, q)
  {
    if |s| > 0 {
      CountPointwise(s[..|s| - 1], t[..|t| - 1], p, q);
    }
  }

  /** A count is at most the table size, and zero exactly when no row passes. */
  lemma CountBounds<T(!new)>(s: seq<T>, p: T -> bool)
    ensures Count(s, p) <= |s|
    ensures Count(s, p) == 0 <==> forall x :: x in s ==> !p(x)
  {
    var m := Select(s, p);
    if |m| > 0 {
      assert m[0] in m;
    } else {
      forall x | x in s ensures !p(x) {
        assert x !in m;
      }
    }
  }

  /** A filter every row passes keeps the table as it is. */
  lemma {:induction false} SelectAll<T(!new)>(s: seq<T>, p: T -> bool)
    requires forall x :: x in s ==> p(x)
    ensures Select(s, p) == s
  {
    if |s| > 0 {
      var init := s[..|s| - 1];
      assert s == init + [s[|s| - 1]];
      assert forall x :: x in init ==> x in s;
      SelectAll(init, p);
    }
  }

  /** A value above every row's `key`: where the store's id sequence may
      continue. Which id the store actually hands out is not modelled. */
  function FreshKey<T>(s: seq<T>, key: T -> nat): (n: nat)
    ensures forall x :: x in s ==> key(x) < n
  {
    if |s| == 0 then 1
    else
      var m := FreshKey(s[1..], key);
      assert forall x :: x in s ==> x == s[0] || x in s[1..];
      if key(s[0]) < m then m else key(s[0]) + 1
  }

  /** No two rows share a `key`: the store's primary key. */
  ghost predicate UniqueBy<T, K>(s: seq<T>, key: T -> K) {
    forall i, j :: 0 <= i < j < |s| ==> key(s[i]) != key(s[j])
  }

  /** The filter `eq(column, k)` on the column `key`. */
  function KeyIs<T(!new), K(==)>(key: T -> K, k: K): (p: T -> bool)
    ensures forall x :: p(x) <==> key(x) == k
  {
    (x: T) => key(x) == k
  }

  /** Under a unique key at most one row matches a key value. */
  lemma {:induction false} AtMostOneByKey<T(!new), K>(s: seq<T>, key: T -> K, k: K)
    requires UniqueBy(s, key)
    ensures Count(s, KeyIs(key, k)) <= 1
  {
    if |s| > 0 {
      var init := s[..|s| - 1];
      var last := s[|s| - 1];
      assert s == init + [last];
      CountAppend(init, last, KeyIs(key, k));
      AtMostOneByKey(init, key, k);
      if key(last) == k {
        CountBounds(init, KeyIs(key, k));
      }
    }
  }

  /** Under a unique key, `.single()` on a key value finds the row exactly
      when one has that value. */
  lemma FindByKey<T(!new), K>(s: seq<T>, key: T -> K, k: K)
    requires UniqueBy(s, key)
    ensures Single(s, KeyIs(key, k)).Some? <==> exists x :: x in s && key(x) == k
    ensures forall x :: x in s && key(x) == k ==> Single(s, KeyIs(key, k)) == Some(x)
  {
    AtMostOneByKey(s, key, k);
    CountBounds(s, KeyIs(key, k));
  }

  /** Selecting from a table with one more row at the end. */
  lemma SelectSnoc<T(!new)>(init: seq<T>, last: T, p: T -> bool)
    ensures Select(init + [last], p) == Select(init, p) + (if p(last) then [last] else [])
  {
    assert (init + [last])[..|init|] == init;
  }

  /** A row whose key no earlier row has keeps the key unique. */
  lemma UniqueSnoc<T, K>(m: seq<T>, last: T, key: T -> K)
    requires UniqueBy(m, key)
    requires forall i :: 0 <= i < |m| ==> key(m[i]) != key(last)
    ensures UniqueBy(m + [last], key)
  {
  }

  /** Under a unique key, the last row's key is on no row drawn from the
      rows before it. */
  lemma KeyOfLastIsNew<T, K>(init: seq<T>, last: T, m: seq<T>, key: T -> K)
    requires UniqueBy(init + [last], key)
    requires forall x :: x in m ==> x in init
    ensures forall i :: 0 <= i < |m| ==> key(m[i]) != key(last)
  {
    var s := init + [last];
    forall i | 0 <= i < |m| ensures key(m[i]) != key(last) {
      assert m[i] in init;
      var j :| 0 <= j < |init| && init[j] == m[i];
      assert s[j] == m[i] && s[|init|] == last;
    }
  }

  /** Selecting rows keeps a key unique. */
  lemma {:induction false} SelectKeepsUniqueBy<T(!new), K>(s: seq<T>, p: T -> bool, key: T -> K)
    requires UniqueBy(s, key)
    ensures UniqueBy(Select(s, p), key)
  {
    if |s| > 0 {
      var init := s[..|s| - 1];
      var last := s[|s| - 1];
      assert s == init + [last];
      var m := Select(init, p);
      SelectKeepsUniqueBy(init, p, key);
      SelectSnoc(init, last, p);
      if p(last) {
        KeyOfLastIsNew(init, last, m, key);
        UniqueSnoc(m, last, key);
      }
    }
  }
}
