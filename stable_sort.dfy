/** Python's `list.sort(key=...)` / `sorted(...)` on a key of two numbers,
    compared lexicographically as Python compares tuples. The sort is stable:
    elements with equal keys keep their original order. */
module StableSort {
  /** Tuple order on `(a, b)` keys. */
  predicate KeyLe(a: (real, real), b: (real, real)) {
    a.0 < b.0 || (a.0 == b.0 && a.1 <= b.1)
  }

  predicate SortedBy<T>(s: seq<T>, key: T -> (real, real)) {
    forall i, j | 0 <= i < j < |s| :: KeyLe(key(s[i]), key(s[j]))
  }

  /** The elements of `s` whose key is `k`, in order. */
  function WithKey<T>(s: seq<T>, key: T -> (real, real), k: (real, real)): seq<T>
    decreases |s|
  {
    if |s| == 0 then []
    else WithKey(s[..|s| - 1], key, k) + (if key(s[|s| - 1]) == k then [s[|s| - 1]] else [])
  }

  /** Places `x` after every element of the sorted `t` whose key is not greater. */
  function Insert<T>(x: T, t: seq<T>, key: T -> (real, real)): seq<T>
    decreases |t|
  {
    if |t| == 0 then [x]
    else if KeyLe(key(t[|t| - 1]), key(x)) then t + [x]
    else Insert(x, t[..|t| - 1], key) + [t[|t| - 1]]
  }

  /** The stable sort: each element in turn is inserted into the sorted prefix. */
  function Sort<T>(s: seq<T>, key: T -> (real, real)): seq<T>
    decreases |s|
  {
    if |s| == 0 then [] else Insert(s[|s| - 1], Sort(s[..|s| - 1], key), key)
  }

  lemma {:induction false} WithKeyAppend<T>(a: seq<T>, b: seq<T>, key: T -> (real, real), k: (real, real))
    ensures WithKey(a + b, key, k) == WithKey(a, key, k) + WithKey(b, key, k)
    decreases |b|
  {
    if |b| > 0 {
      assert (a + b)[..|a + b| - 1] == a + b[..|b| - 1];
      WithKeyAppend(a, b[..|b| - 1], key, k);
    } else {
      assert a + b == a;
    }
  }

  /** Inserting adds exactly `x`. */
  lemma {:induction false} InsertPerm<T>(x: T, t: seq<T>, key: T -> (real, real))
    ensures |Insert(x, t, key)| == |t| + 1
    ensures multiset(Insert(x, t, key)) == multiset(t) + multiset{x}
    decreases |t|
  {
    if |t| > 0 && !KeyLe(key(t[|t| - 1]), key(x)) {
      var init, last := t[..|t| - 1], t[|t| - 1];
      assert t == init + [last];
      InsertPerm(x, init, key);
    }
  }

  /** Inserting into a sorted sequence keeps it sorted. */
  lemma {:induction false} InsertSorted<T>(x: T, t: seq<T>, key: T -> (real, real))
    requires SortedBy(t, key)
    ensures SortedBy(Insert(x, t, key), key)
    decreases |t|
  {
    if |t| > 0 && !KeyLe(key(t[|t| - 1]), key(x)) {
      var init, last := t[..|t| - 1], t[|t| - 1];
      assert t == init + [last];
      InsertSorted(x, init, key);
      InsertBelow(x, init, last, key);
      var r := Insert(x, init, key);
      assert Insert(x, t, key) == r + [last];
      SortedSnoc(r, last, key);
    }
  }

  /** Every key of `x` inserted into `init` is at most the key of `last`
      when `last` follows `init` in order and is greater than `x`. */
  lemma InsertBelow<T>(x: T, init: seq<T>, last: T, key: T -> (real, real))
    requires SortedBy(init + [last], key) && !KeyLe(key(last), key(x))
    ensures forall i | 0 <= i < |Insert(x, init, key)| :: KeyLe(key(Insert(x, init, key)[i]), key(last))
  {
    InsertPerm(x, init, key);
    var r := Insert(x, init, key);
    forall i | 0 <= i < |r| ensures KeyLe(key(r[i]), key(last)) {
      var e := r[i];
      assert e in multiset(r);
      if e != x {
        assert e in multiset(init);
        var m :| 0 <= m < |init| && init[m] == e;
        assert (init + [last])[m] == e && (init + [last])[|init|] == last;
      }
    }
  }

  lemma SortedSnoc<T>(r: seq<T>, last: T, key: T -> (real, real))
    requires SortedBy(r, key)
    requires forall i | 0 <= i < |r| :: KeyLe(key(r[i]), key(last))
    ensures SortedBy(r + [last], key)
  {
    forall i, j | 0 <= i < j < |r| + 1
      ensures KeyLe(key((r + [last])[i]), key((r + [last])[j]))
    {
      if j < |r| {
        assert (r + [last])[i] == r[i] && (r + [last])[j] == r[j];
      }
    }
  }

  /** Among the elements of any one key, `x` comes after those of `t`. */
  lemma {:induction false} InsertWithKey<T>(x: T, t: seq<T>, key: T -> (real, real), k: (real, real))
    ensures WithKey(Insert(x, t, key), key, k) == WithKey(t, key, k) + (if key(x) == k then [x] else [])
    decreases |t|
  {
    if |t| == 0 {
    } else if KeyLe(key(t[|t| - 1]), key(x)) {
      assert (t + [x])[..|t|] == t;
    } else {
      var init, last := t[..|t| - 1], t[|t| - 1];
      assert t == init + [last];
      InsertWithKey(x, init, key, k);
      var r := Insert(x, init, key);
      assert Insert(x, t, key) == r + [last];
      assert (r + [last])[..|r|] == r;
      assert key(last) != key(x);
    }
  }

  /** The result is ordered by key, is a permutation of the input, and keeps
      the input order among equal keys: together these determine it. */
  lemma {:induction false} SortFacts<T>(s: seq<T>, key: T -> (real, real))
    ensures |Sort(s, key)| == |s|
    ensures SortedBy(Sort(s, key), key)
    ensures multiset(Sort(s, key)) == multiset(s)
    ensures forall k :: WithKey(Sort(s, key), key, k) == WithKey(s, key, k)
    decreases |s|
  {
    if |s| > 0 {
      var init := s[..|s| - 1];
      var last := s[|s| - 1];
      assert s == init + [last];
      SortFacts(init, key);
      var r := Sort(init, key);
      assert Sort(s, key) == Insert(last, r, key);
      InsertPerm(last, r, key);
      InsertSorted(last, r, key);
      forall k ensures WithKey(Sort(s, key), key, k) == WithKey(s, key, k) {
        InsertWithKey(last, r, key, k);
        assert WithKey(s, key, k) == WithKey(init, key, k) + (if key(last) == k then [last] else []);
      }
    }
  }
}
