/** A stable sort by key, the shape of Rust's `sort_by_key` and of a
    `sort_by` that compares one key: the result is ordered by key, is a
    permutation of the input, and elements with equal keys keep their input
    order. */
module StableSort {

  /** `leq` is a total order on keys. */
  ghost predicate TotalOrder<K(!new)>(leq: (K, K) -> bool) {
    && (forall a :: leq(a, a))
    && (forall a, b :: leq(a, b) && leq(b, a) ==> a == b)
    && (forall a, b, c :: leq(a, b) && leq(b, c) ==> leq(a, c))
    && (forall a, b :: leq(a, b) || leq(b, a))
  }

  /** The usual order on integers, as a value `SortByKey` can take. */
  predicate IntLeq(a: int, b: int) {
    a <= b
  }

  ghost predicate SortedBy<T, K>(s: seq<T>, key: T -> K, leq: (K, K) -> bool) {
    forall i, j :: 0 <= i < j < |s| ==> leq(key(s[i]), key(s[j]))
  }

  /** The elements of `s` whose key is `k`, in their order in `s`. */
  function WithKey<T, K(==)>(s: seq<T>, key: T -> K, k: K): seq<T> {
    if s == [] then []
    else (if key(s[0]) == k then [s[0]] else []) + WithKey(s[1..], key, k)
  }

  /** Puts `x` in front of the first element whose key is not below its own. */
  function Insert<T, K>(x: T, s: seq<T>, key: T -> K, leq: (K, K) -> bool): seq<T> {
    if s == [] || leq(key(x), key(s[0])) then [x] + s
    else [s[0]] + Insert(x, s[1..], key, leq)
  }

  function SortByKey<T, K(!new)>(s: seq<T>, key: T -> K, leq: (K, K) -> bool): (r: seq<T>)
    requires TotalOrder(leq)
    ensures multiset(r) == multiset(s)
    ensures SortedBy(r, key, leq)
    ensures forall k :: WithKey(r, key, k) == WithKey(s, key, k)
  {
    if s == [] then []
    else
      var t := SortByKey(s[1..], key, leq);
      InsertPermutes(s[0], t, key, leq);
      InsertSorted(s[0], t, key, leq);
      forall k ensures WithKey(Insert(s[0], t, key, leq), key, k) == WithKey(s, key, k) {
        InsertWithKey(s[0], t, key, leq, k);
      }
      assert s == [s[0]] + s[1..];
      Insert(s[0], t, key, leq)
  }

  lemma {:induction false} InsertPermutes<T, K>(x: T, s: seq<T>, key: T -> K, leq: (K, K) -> bool)
    ensures multiset(Insert(x, s, key, leq)) == multiset([x] + s)
    decreases |s|
  {
    if s != [] && !leq(key(x), key(s[0])) {
      InsertPermutes(x, s[1..], key, leq);
      assert s == [s[0]] + s[1..];
    }
  }

  lemma {:induction false} InsertSorted<T, K(!new)>(x: T, s: seq<T>, key: T -> K, leq: (K, K) -> bool)
    requires TotalOrder(leq)
    requires SortedBy(s, key, leq)
    ensures SortedBy(Insert(x, s, key, leq), key, leq)
    decreases |s|
  {
    var r := Insert(x, s, key, leq);
    if s == [] || leq(key(x), key(s[0])) {
      forall i, j | 0 <= i < j < |r| ensures leq(key(r[i]), key(r[j])) {
        if i > 0 {
          assert r[i] == s[i - 1] && r[j] == s[j - 1];
        } else {
          assert r[j] == s[j - 1];
        }
      }
    } else {
      var u := Insert(x, s[1..], key, leq);
      InsertSorted(x, s[1..], key, leq);
      InsertPermutes(x, s[1..], key, leq);
      forall j | 0 <= j < |u| ensures leq(key(s[0]), key(u[j])) {
        assert u[j] in multiset([x] + s[1..]);
        assert u[j] == x || u[j] in s[1..];
        if u[j] != x {
          var m :| 0 <= m < |s[1..]| && s[1..][m] == u[j];
          assert s[m + 1] == u[j];
        }
      }
      forall i, j | 0 <= i < j < |r| ensures leq(key(r[i]), key(r[j])) {
        if i > 0 {
          assert r[i] == u[i - 1] && r[j] == u[j - 1];
        } else {
          assert r[j] == u[j - 1];
        }
      }
    }
  }

  lemma {:induction false} InsertWithKey<T, K(!new)>(x: T, s: seq<T>, key: T -> K, leq: (K, K) -> bool, k: K)
    requires forall a :: leq(a, a)
    ensures WithKey(Insert(x, s, key, leq), key, k) == (if key(x) == k then [x] else []) + WithKey(s, key, k)
    decreases |s|
  {
    if s == [] || leq(key(x), key(s[0])) {
      WithKeyCons(x, s, key, k);
    } else {
      var u := Insert(x, s[1..], key, leq);
      InsertWithKey(x, s[1..], key, leq, k);
      assert key(s[0]) != key(x) by { assert leq(key(x), key(x)); }
      WithKeyCons(s[0], u, key, k);
      WithKeyCons(s[0], s[1..], key, k);
      assert s == [s[0]] + s[1..];
      SwapDisjoint(if key(s[0]) == k then [s[0]] else [], if key(x) == k then [x] else [], WithKey(s[1..], key, k));
    }
  }

  lemma WithKeyCons<T, K>(y: T, t: seq<T>, key: T -> K, k: K)
    ensures WithKey([y] + t, key, k) == (if key(y) == k then [y] else []) + WithKey(t, key, k)
  {
    assert ([y] + t)[1..] == t;
  }

  lemma SwapDisjoint<T>(a: seq<T>, b: seq<T>, c: seq<T>)
    requires a == [] || b == []
    ensures a + (b + c) == b + (a + c)
  {
  }
}
