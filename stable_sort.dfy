/** `Array.prototype.sort` with a numeric comparator `(a, b) => key(a) - key(b)`.
    The language guarantees a stable sort, and a stable sort's output is unique
    (`StableSortIsUnique`), so any stable algorithm models it; this one is an
    insertion sort. */
module StableSort {

  /** Keys never decrease along `s`. */
  predicate Sorted<T>(s: seq<T>, key: T -> int) {
    forall i, j :: 0 <= i < j < |s| ==> key(s[i]) <= key(s[j])
  }

  /** The elements of `s` whose key is `k`, in their order. */
  function WithKey<T>(s: seq<T>, key: T -> int, k: int): seq<T> {
    if |s| == 0 then []
    else (if key(s[0]) == k then [s[0]] else []) + WithKey(s[1..], key, k)
  }

  /** Places `x` in front of the first element whose key is not smaller. */
  function Insert<T(==)>(x: T, s: seq<T>, key: T -> int): (r: seq<T>)
    ensures multiset(r) == multiset(s) + multiset{x}
    ensures forall y | y in r :: y == x || y in s
  {
    if |s| == 0 || key(x) <= key(s[0]) then [x] + s
    else
      assert s == [s[0]] + s[1..];
      [s[0]] + Insert(x, s[1..], key)
  }

  /** Inserting into a sorted sequence keeps it sorted. */
  lemma {:induction false} InsertSorted<T>(x: T, s: seq<T>, key: T -> int)
    requires Sorted(s, key)
    ensures Sorted(Insert(x, s, key), key)
  {
    if |s| > 0 && key(x) > key(s[0]) {
      var t := Insert(x, s[1..], key);
      InsertSorted(x, s[1..], key);
      forall y | y in t ensures key(s[0]) <= key(y) {
        if y != x {
          var j :| 0 <= j < |s[1..]| && s[1..][j] == y;
          assert s[j + 1] == y;
        }
      }
      var r := [s[0]] + t;
      forall i, j | 0 <= i < j < |r| ensures key(r[i]) <= key(r[j]) {
        assert r[j] == t[j - 1];
        if i > 0 {
          assert r[i] == t[i - 1];
        } else {
          assert r[j] in t;
        }
      }
    }
  }

  function SortBy<T(==)>(s: seq<T>, key: T -> int): (r: seq<T>)
    ensures multiset(r) == multiset(s)
    ensures |r| == |s|
    ensures Sorted(r, key)
  {
    if |s| == 0 then []
    else
      assert s == [s[0]] + s[1..];
      InsertSorted(s[0], SortBy(s[1..], key), key);
      Insert(s[0], SortBy(s[1..], key), key)
  }

  /** The group of `k` in a sequence with one more element in front. */
  lemma WithKeyCons<T>(y: T, t: seq<T>, key: T -> int, k: int)
    ensures WithKey([y] + t, key, k) == (if key(y) == k then [y] else []) + WithKey(t, key, k)
  {
    assert ([y] + t)[1..] == t;
  }

  lemma {:induction false} WithKeyAppend<T>(a: seq<T>, b: seq<T>, key: T -> int, k: int)
    ensures WithKey(a + b, key, k) == WithKey(a, key, k) + WithKey(b, key, k)
  {
    if |a| == 0 {
      assert a + b == b;
    } else {
      assert a + b == [a[0]] + (a[1..] + b);
      assert a == [a[0]] + a[1..];
      WithKeyCons(a[0], a[1..] + b, key, k);
      WithKeyCons(a[0], a[1..], key, k);
      WithKeyAppend(a[1..], b, key, k);
    }
  }

  lemma {:induction false} WithKeyMembers<T>(s: seq<T>, key: T -> int, k: int)
    ensures forall y :: y in WithKey(s, key, k) ==> y in s && key(y) == k
  {
    if |s| > 0 {
      WithKeyMembers(s[1..], key, k);
    }
  }

  lemma {:induction false} WithKeyHit<T>(s: seq<T>, key: T -> int, i: int)
    requires 0 <= i < |s|
    ensures WithKey(s, key, key(s[i])) != []
  {
    if i > 0 {
      WithKeyHit(s[1..], key, i - 1);
    }
  }

  lemma {:induction false} InsertWithKey<T>(x: T, s: seq<T>, key: T -> int, k: int)
    ensures WithKey(Insert(x, s, key), key, k) == (if key(x) == k then [x] else []) + WithKey(s, key, k)
  {
    if |s| == 0 || key(x) <= key(s[0]) {
      WithKeyCons(x, s, key, k);
    } else {
      var t := Insert(x, s[1..], key);
      assert Insert(x, s, key) == [s[0]] + t;
      assert s == [s[0]] + s[1..];
      WithKeyCons(s[0], t, key, k);
      WithKeyCons(s[0], s[1..], key, k);
      InsertWithKey(x, s[1..], key, k);
      if key(x) == k {
        assert key(s[0]) != k;
      }
    }
  }

  /** Elements with equal keys keep their relative order. */
  lemma {:induction false} SortByIsStable<T>(s: seq<T>, key: T -> int, k: int)
    ensures WithKey(SortBy(s, key), key, k) == WithKey(s, key, k)
  {
    if |s| > 0 {
      SortByIsStable(s[1..], key, k);
      InsertWithKey(s[0], SortBy(s[1..], key), key, k);
    }
  }

  /** Two sorted sequences with the same elements per key, in the same order,
      are equal. */
  lemma {:induction false} SortedGroupsDetermine<T>(r: seq<T>, q: seq<T>, key: T -> int)
    requires Sorted(r, key) && Sorted(q, key)
    requires forall k :: WithKey(r, key, k) == WithKey(q, key, k)
    ensures r == q
    decreases |r|
  {
    if |r| == 0 {
      if |q| > 0 {
        WithKeyHit(q, key, 0);
      }
    } else if |q| == 0 {
      WithKeyHit(r, key, 0);
    } else {
      var m, m' := key(r[0]), key(q[0]);
      WithKeyHit(r, key, 0);
      WithKeyHit(q, key, 0);
      WithKeyMembers(q, key, m);
      WithKeyMembers(r, key, m');
      var y := WithKey(q, key, m)[0];
      assert y in q;
      var z := WithKey(r, key, m')[0];
      assert z in r;
      assert m' <= m && m <= m';
      assert r[0] == WithKey(r, key, m)[0] == WithKey(q, key, m)[0] == q[0];
      forall k ensures WithKey(r[1..], key, k) == WithKey(q[1..], key, k) {
        var head := if m == k then [r[0]] else [];
        assert WithKey(r, key, k) == head + WithKey(r[1..], key, k);
        assert WithKey(q, key, k) == head + WithKey(q[1..], key, k);
        assert WithKey(r[1..], key, k) == (head + WithKey(r[1..], key, k))[|head|..];
        assert WithKey(q[1..], key, k) == (head + WithKey(q[1..], key, k))[|head|..];
      }
      SortedGroupsDetermine(r[1..], q[1..], key);
      assert r == [r[0]] + r[1..] && q == [q[0]] + q[1..];
    }
  }

  /** Any sorted arrangement of `s` that keeps equal keys in their original
      order is `SortBy(s, key)`: every stable sort agrees with this one. */
  lemma StableSortIsUnique<T>(s: seq<T>, r: seq<T>, key: T -> int)
    requires Sorted(r, key)
    requires forall k :: WithKey(r, key, k) == WithKey(s, key, k)
    ensures r == SortBy(s, key)
  {
    forall k ensures WithKey(r, key, k) == WithKey(SortBy(s, key), key, k) {
      SortByIsStable(s, key, k);
    }
    SortedGroupsDetermine(r, SortBy(s, key), key);
  }

  /** The first `n` elements of the sorted sequence have no larger key than
      any element left out. */
  lemma SortedPrefixIsSmallest<T>(s: seq<T>, key: T -> int, n: nat)
    requires n <= |s|
    ensures forall i, y | 0 <= i < n && y in s && y !in SortBy(s, key)[..n] :: key(SortBy(s, key)[i]) <= key(y)
  {
    var sorted := SortBy(s, key);
    forall i, y | 0 <= i < n && y in s && y !in sorted[..n] ensures key(sorted[i]) <= key(y) {
      assert y in multiset(sorted);
      var j :| 0 <= j < |sorted| && sorted[j] == y;
      assert n <= j;
    }
  }
}
