/** The JavaScript array built-ins the store relies on, as functions on
    sequences: `indexOf`, `splice(i, 1)` after `indexOf`, and `filter`. */
module ArrayOps {

  /** Number of occurrences of `x` in `s`. */
  function Count<T(==)>(s: seq<T>, x: T): nat {
    multiset(s)[x]
  }

  /** No value occurs twice. */
  predicate Distinct<T(==)>(s: seq<T>) {
    forall x | x in s :: Count(s, x) <= 1
  }

  /** Pairwise different elements, by index. */
  predicate NoRepeats<T(==)>(s: seq<T>) {
    forall i, j | 0 <= i < j < |s| :: s[i] != s[j]
  }

  /** `order` lists the values of `keys` once each, as the iteration order of
      a `Map` with those keys does. */
  ghost predicate Lists<T(!new)>(order: seq<T>, keys: set<T>) {
    Distinct(order) && forall k :: k in order <==> k in keys
  }

  /** `s.indexOf(x)`: the first index holding `x`, or -1. */
  function IndexOf<T(==)>(s: seq<T>, x: T): (i: int)
    ensures -1 <= i < |s|
    ensures i == -1 <==> x !in s
    ensures 0 <= i ==> s[i] == x && x !in s[..i]
  {
    if |s| == 0 then -1
    else if s[0] == x then 0
    else
      var j := IndexOf(s[1..], x);
      if j == -1 then -1
      else
        assert s[..j + 1] == [s[0]] + s[1..][..j];
        j + 1
  }

  /** `const i = s.indexOf(x); if (i > -1) s.splice(i, 1);` */
  function RemoveFirst<T(==)>(s: seq<T>, x: T): (r: seq<T>)
    ensures multiset(r) == multiset(s) - multiset{x}
    ensures x !in s ==> r == s
  {
    var i := IndexOf(s, x);
    if i > -1 then
      assert s == s[..i] + [s[i]] + s[i + 1..];
      s[..i] + s[i + 1..]
    else s
  }

  /** `s` with every occurrence of `x` dropped; the other values keep their order. */
  function Without<T(==)>(s: seq<T>, x: T): (r: seq<T>)
    ensures multiset(r) == multiset(s)[x := 0]
  {
    if |s| == 0 then []
    else
      assert s == [s[0]] + s[1..];
      (if s[0] == x then [] else [s[0]]) + Without(s[1..], x)
  }

  /** `s.filter(keep)`: the elements satisfying `keep`, in their order. */
  function Filter<T(==)>(s: seq<T>, keep: T -> bool): (r: seq<T>)
    ensures forall x | x in r :: keep(x) && Count(r, x) == Count(s, x)
    ensures forall x | x in s && keep(x) :: Count(r, x) == Count(s, x)
  {
    if |s| == 0 then []
    else
      assert s == [s[0]] + s[1..];
      (if keep(s[0]) then [s[0]] else []) + Filter(s[1..], keep)
  }

  /** Filtering with a test every element passes keeps everything. */
  lemma {:induction false} FilterAll<T>(s: seq<T>, keep: T -> bool)
    requires forall x | x in s :: keep(x)
    ensures Filter(s, keep) == s
  {
    if |s| > 0 {
      assert s == [s[0]] + s[1..];
      FilterAll(s[1..], keep);
    }
  }

  lemma CountPositive<T>(s: seq<T>, x: T)
    ensures x in s <==> Count(s, x) > 0
  {
  }

  lemma {:induction false} WithoutAppend<T>(a: seq<T>, b: seq<T>, x: T)
    ensures Without(a + b, x) == Without(a, x) + Without(b, x)
  {
    if |a| > 0 {
      var head := if a[0] == x then [] else [a[0]];
      assert (a + b)[0] == a[0];
      assert (a + b)[1..] == a[1..] + b;
      WithoutAppend(a[1..], b, x);
      calc {
        Without(a + b, x);
        head + Without(a[1..] + b, x);
        head + (Without(a[1..], x) + Without(b, x));
        (head + Without(a[1..], x)) + Without(b, x);
        Without(a, x) + Without(b, x);
      }
    } else {
      assert a + b == b;
    }
  }

  lemma {:induction false} WithoutAbsent<T>(s: seq<T>, x: T)
    requires x !in s
    ensures Without(s, x) == s
  {
    if |s| > 0 {
      WithoutAbsent(s[1..], x);
    }
  }

  /** Filtering a value out twice is filtering it out once. */
  lemma {:induction false} WithoutIdempotent<T>(s: seq<T>, x: T)
    ensures Without(Without(s, x), x) == Without(s, x)
  {
    CountPositive(Without(s, x), x);
    WithoutAbsent(Without(s, x), x);
  }

  /** The splice after `indexOf` drops every occurrence when there is at most
      one, which is what the store's scan-and-remove relies on. */
  lemma {:induction false} RemoveFirstOfUnique<T>(s: seq<T>, x: T)
    requires Count(s, x) <= 1
    ensures RemoveFirst(s, x) == Without(s, x)
  {
    if x !in s {
      WithoutAbsent(s, x);
    } else {
      var i := IndexOf(s, x);
      var pre, post := s[..i], s[i + 1..];
      assert RemoveFirst(s, x) == pre + post;
      assert s == (pre + [x]) + post;
      assert x !in post by {
        assert multiset(s) == multiset(pre) + multiset{x} + multiset(post);
        CountPositive(post, x);
      }
      WithoutSplice(pre, post, x);
    }
  }

  lemma {:induction false} WithoutSplice<T>(pre: seq<T>, post: seq<T>, x: T)
    requires x !in pre && x !in post
    ensures Without(pre + [x] + post, x) == pre + post
  {
    if |pre| == 0 {
      assert pre + [x] + post == [x] + post;
      assert ([x] + post)[1..] == post;
      WithoutAbsent(post, x);
    } else {
      assert (pre + [x] + post)[1..] == pre[1..] + [x] + post;
      WithoutSplice(pre[1..], post, x);
      assert pre + post == [pre[0]] + (pre[1..] + post);
    }
  }

  /** The index form of `Distinct`. */
  lemma {:induction false} DistinctIndices<T>(s: seq<T>, i: int, j: int)
    requires Distinct(s)
    requires 0 <= i < j < |s|
    ensures s[i] != s[j]
  {
    assert s[i] in s;
    assert s == s[..i] + [s[i]] + s[i + 1..j] + [s[j]] + s[j + 1..];
    assert multiset(s) == multiset(s[..i]) + multiset{s[i]} + multiset(s[i + 1..j]) + multiset{s[j]} + multiset(s[j + 1..]);
  }

  lemma {:induction false} DistinctAppend<T>(s: seq<T>, x: T)
    requires Distinct(s) && x !in s
    ensures Distinct(s + [x])
  {
    forall y | y in s + [x] ensures Count(s + [x], y) <= 1 {
      assert multiset(s + [x]) == multiset(s) + multiset{x};
      CountPositive(s, x);
    }
  }

  lemma DistinctPermutationPrefix<T>(s: seq<T>, r: seq<T>, n: nat)
    requires Distinct(s) && multiset(r) == multiset(s) && n <= |r|
    ensures Distinct(r[..n])
  {
    assert r == r[..n] + r[n..];
    assert multiset(r) == multiset(r[..n]) + multiset(r[n..]);
    forall x | x in r[..n] ensures Count(r[..n], x) <= 1 {
      CountPositive(r[..n], x);
      CountPositive(s, x);
    }
  }

  /** Filtering keeps exactly the elements satisfying the test, and keeps a
      sequence without repeats. */
  lemma FilterMembers<T>(s: seq<T>, keep: T -> bool)
    ensures forall x :: x in Filter(s, keep) <==> x in s && keep(x)
    ensures Distinct(s) ==> Distinct(Filter(s, keep))
  {
    var r := Filter(s, keep);
    forall x ensures x in r <==> x in s && keep(x) {
      CountPositive(r, x);
      CountPositive(s, x);
    }
  }

  lemma {:induction false} WithoutShorter<T>(s: seq<T>, x: T)
    ensures |Without(s, x)| <= |s|
    ensures Distinct(s) ==> Distinct(Without(s, x))
  {
    if |s| > 0 {
      WithoutShorter(s[1..], x);
    }
    if Distinct(s) {
      forall y | y in Without(s, x) ensures Count(Without(s, x), y) <= 1 {
        CountPositive(Without(s, x), y);
        CountPositive(s, y);
      }
    }
  }

  /** A sequence without repeats has as many elements as its set of values. */
  lemma {:induction false} DistinctCardinality<T>(s: seq<T>)
    requires Distinct(s)
    ensures |set x | x in s| == |s|
  {
    if |s| > 0 {
      var rest := s[1..];
      assert s == [s[0]] + rest;
      assert multiset(s) == multiset{s[0]} + multiset(rest);
      assert s[0] !in rest by {
        assert s[0] in s;
        CountPositive(rest, s[0]);
      }
      forall x | x in rest ensures Count(rest, x) <= 1 {
        assert x in s;
      }
      DistinctCardinality(rest);
      assert (set x | x in s) == {s[0]} + (set x | x in rest);
    }
  }

  /** Membership in a prefix one longer. */
  lemma PrefixStep<T>(s: seq<T>, i: nat)
    requires i < |s|
    ensures forall x :: x in s[..i + 1] <==> x in s[..i] || x == s[i]
  {
    assert s[..i + 1] == s[..i] + [s[i]];
  }

  /** In a sequence without repeats no element occurs before its own index. */
  lemma DistinctPrefixExcludes<T>(s: seq<T>, i: nat)
    requires Distinct(s) && i < |s|
    ensures s[i] !in s[..i]
  {
    if s[i] in s[..i] {
      var j :| 0 <= j < i && s[..i][j] == s[i];
      DistinctIndices(s, j, i);
    }
  }

  /** A listing of a set is as long as the set is large. */
  lemma ListsCardinality<T(!new)>(order: seq<T>, keys: set<T>)
    requires Lists(order, keys)
    ensures |order| == |keys|
  {
    DistinctCardinality(order);
    assert (set k | k in order) == keys;
  }

  /** `Array.from(m.values())`, where `order` is the map's iteration order. */
  function ValuesInOrder<K, V>(m: map<K, V>, order: seq<K>): (r: seq<V>)
    requires forall k | k in order :: k in m
    ensures |r| == |order|
    ensures forall i | 0 <= i < |order| :: r[i] == m[order[i]]
  {
    seq(|order|, i requires 0 <= i < |order| => m[order[i]])
  }

  /** The two ways of saying "no value occurs twice" agree. */
  lemma DistinctNoRepeats<T>(s: seq<T>)
    requires Distinct(s)
    ensures NoRepeats(s)
  {
    forall i, j | 0 <= i < j < |s| ensures s[i] != s[j] {
      DistinctIndices(s, i, j);
    }
  }

  lemma {:induction false} NoRepeatsDistinct<T>(s: seq<T>)
    requires NoRepeats(s)
    ensures Distinct(s)
  {
    if |s| > 0 {
      var rest := s[1..];
      assert s == [s[0]] + rest;
      assert multiset(s) == multiset{s[0]} + multiset(rest);
      forall i, j | 0 <= i < j < |rest| ensures rest[i] != rest[j] {
        assert rest[i] == s[i + 1] && rest[j] == s[j + 1];
      }
      NoRepeatsDistinct(rest);
      assert s[0] !in rest;
      forall x | x in s ensures Count(s, x) <= 1 {
        CountPositive(rest, x);
      }
    }
  }

  /** The indices of `s` holding `x`. */
  function Positions(s: seq<string>, x: string): set<int> {
    set i | 0 <= i < |s| && s[i] == x
  }

  /** The number of occurrences is the number of indices holding the value. */
  lemma {:induction false} CountIndices(s: seq<string>, x: string)
    ensures Count(s, x) == |Positions(s, x)|
  {
    if |s| > 0 {
      var n := |s| - 1;
      var p := s[..n];
      CountIndices(p, x);
      assert s == p + [s[n]];
      assert multiset(s) == multiset(p) + multiset{s[n]};
      var before := Positions(p, x);
      var after := Positions(s, x);
      if s[n] == x {
        assert after == before + {n};
      } else {
        assert after == before;
      }
    }
  }
}
