/**
 * A stable sort by an integer-pair key, ascending in lexicographic order. It stands
 * for `Array.prototype.sort` with the indexer's comparator (stable since ES2019) and
 * for SQL `ORDER BY`. It is defined as an insertion sort; what the callers rely on is
 * stated by the lemmas: the result is ordered, is a permutation of the input, and
 * keeps the input order among elements with equal keys.
 */
module Sorting {

  /** Lexicographic order on (major, minor) keys. */
  predicate KeyLe(a: (int, int), b: (int, int))
  {
    a.0 < b.0 || (a.0 == b.0 && a.1 <= b.1)
  }

  predicate SortedByKey<T>(s: seq<T>, key: T -> (int, int))
  {
    forall i, j :: 0 <= i < j < |s| ==> KeyLe(key(s[i]), key(s[j]))
  }

  /** The elements of `s` whose key is `k`, in their order in `s`. */
  function WithKey<T>(s: seq<T>, key: T -> (int, int), k: (int, int)): seq<T>
    decreases |s|
  {
    if s == [] then []
    else (if key(s[0]) == k then [s[0]] else []) + WithKey(s[1..], key, k)
  }

  /** Puts `x` just before the first element whose key is not smaller than its own. */
  function InsertByKey<T>(x: T, s: seq<T>, key: T -> (int, int)): seq<T>
    decreases |s|
  {
    if s == [] || KeyLe(key(x), key(s[0])) then [x] + s
    else [s[0]] + InsertByKey(x, s[1..], key)
  }

  function SortByKey<T>(s: seq<T>, key: T -> (int, int)): seq<T>
    decreases |s|
  {
    if s == [] then [] else InsertByKey(s[0], SortByKey(s[1..], key), key)
  }

  lemma {:induction false} InsertByKeyPermutes<T>(x: T, s: seq<T>, key: T -> (int, int))
    ensures multiset(InsertByKey(x, s, key)) == multiset(s) + multiset{x}
    decreases |s|
  {
    if s != [] && !KeyLe(key(x), key(s[0])) {
      InsertByKeyPermutes(x, s[1..], key);
      assert s == [s[0]] + s[1..];
    }
  }

  lemma {:induction false} InsertByKeySorted<T>(x: T, s: seq<T>, key: T -> (int, int))
    requires SortedByKey(s, key)
    ensures SortedByKey(InsertByKey(x, s, key), key)
    decreases |s|
  {
    var r := InsertByKey(x, s, key);
    if s == [] || KeyLe(key(x), key(s[0])) {
      assert r == [x] + s;
    } else {
      var tail := InsertByKey(x, s[1..], key);
      InsertByKeySorted(x, s[1..], key);
      InsertByKeyPermutes(x, s[1..], key);
      assert r == [s[0]] + tail;
      forall j | 0 <= j < |tail| ensures KeyLe(key(s[0]), key(tail[j])) {
        assert tail[j] in multiset(s[1..]) + multiset{x};
        if tail[j] != x {
          assert tail[j] in s[1..];
          var m :| 0 <= m < |s[1..]| && s[1..][m] == tail[j];
          assert s[m + 1] == tail[j];
        }
      }
    }
  }

  /** Sorting yields a permutation of its input, in ascending key order. */
  lemma {:induction false} SortByKeyCorrect<T>(s: seq<T>, key: T -> (int, int))
    ensures multiset(SortByKey(s, key)) == multiset(s)
    ensures SortedByKey(SortByKey(s, key), key)
    decreases |s|
  {
    if s != [] {
      SortByKeyCorrect(s[1..], key);
      InsertByKeyPermutes(s[0], SortByKey(s[1..], key), key);
      InsertByKeySorted(s[0], SortByKey(s[1..], key), key);
      assert s == [s[0]] + s[1..];
    }
  }

  lemma {:induction false} WithKeyAppend<T>(a: seq<T>, b: seq<T>, key: T -> (int, int), k: (int, int))
    ensures WithKey(a + b, key, k) == WithKey(a, key, k) + WithKey(b, key, k)
    decreases |a|
  {
    if a != [] {
      WithKeyAppend(a[1..], b, key, k);
      assert (a + b)[0] == a[0] && (a + b)[1..] == a[1..] + b;
      assert WithKey(a + b, key, k)
          == (if key(a[0]) == k then [a[0]] else []) + WithKey(a[1..] + b, key, k);
    } else {
      assert a + b == b;
    }
  }

  /** Elements that sort strictly before `x` never share its key, so `x` lands ahead of its equals. */
  lemma {:induction false} InsertByKeyStable<T>(x: T, s: seq<T>, key: T -> (int, int), k: (int, int))
    ensures WithKey(InsertByKey(x, s, key), key, k)
         == (if key(x) == k then [x] else []) + WithKey(s, key, k)
    decreases |s|
  {
    if s == [] || KeyLe(key(x), key(s[0])) {
      WithKeyAppend([x], s, key, k);
    } else {
      InsertByKeyStable(x, s[1..], key, k);
      WithKeyAppend([s[0]], InsertByKey(x, s[1..], key), key, k);
      WithKeyAppend([s[0]], s[1..], key, k);
      assert s == [s[0]] + s[1..];
      assert key(s[0]) != key(x);
    }
  }

  /** The sort is stable: among elements with equal keys, the input order is kept. */
  lemma {:induction false} SortByKeyStable<T>(s: seq<T>, key: T -> (int, int), k: (int, int))
    ensures WithKey(SortByKey(s, key), key, k) == WithKey(s, key, k)
    decreases |s|
  {
    if s != [] {
      SortByKeyStable(s[1..], key, k);
      InsertByKeyStable(s[0], SortByKey(s[1..], key), key, k);
    }
  }
}
