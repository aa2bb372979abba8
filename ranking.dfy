/**
 * Python's `sorted(xs, key=..., reverse=True)`: a stable sort into
 * non-increasing key order, where elements with equal keys keep their
 * original relative order.
 */
module Ranking {

  ghost predicate SortedDesc<T>(xs: seq<T>, key: T -> int)
  {
    forall i, j :: 0 <= i < j < |xs| ==> key(xs[i]) >= key(xs[j])
  }

  /** The elements of `xs` whose key is `k`, in order. */
  function WithKey<T>(xs: seq<T>, key: T -> int, k: int): seq<T>
  {
    if xs == [] then []
    else (if key(xs[0]) == k then [xs[0]] else []) + WithKey(xs[1..], key, k)
  }

  /** Puts `x` in front of the first element whose key is not larger. */
  function Insert<T>(x: T, s: seq<T>, key: T -> int): (r: seq<T>)
    ensures multiset(r) == multiset(s) + multiset{x}
  {
    if s == [] || key(s[0]) <= key(x) then [x] + s
    else
      assert s == [s[0]] + s[1..];
      [s[0]] + Insert(x, s[1..], key)
  }

  /** Insertion sort from the back, which keeps ties in input order. */
  function SortDesc<T>(xs: seq<T>, key: T -> int): (r: seq<T>)
    ensures multiset(r) == multiset(xs)
  {
    if xs == [] then []
    else
      assert xs == [xs[0]] + xs[1..];
      Insert(xs[0], SortDesc(xs[1..], key), key)
  }

  /** Inserting below a bound keeps every key below it. */
  lemma {:induction false} InsertBelow<T>(x: T, s: seq<T>, key: T -> int, b: int)
    requires key(x) <= b && forall j :: 0 <= j < |s| ==> key(s[j]) <= b
    ensures forall j :: 0 <= j < |Insert(x, s, key)| ==> key(Insert(x, s, key)[j]) <= b
  {
    if s != [] && key(s[0]) > key(x) {
      InsertBelow(x, s[1..], key, b);
    }
  }

  lemma {:induction false} InsertSorted<T>(x: T, s: seq<T>, key: T -> int)
    requires SortedDesc(s, key)
    ensures SortedDesc(Insert(x, s, key), key)
  {
    if s != [] && key(s[0]) > key(x) {
      InsertSorted(x, s[1..], key);
      InsertBelow(x, s[1..], key, key(s[0]));
    }
  }

  lemma {:induction false} InsertWithKey<T>(x: T, s: seq<T>, key: T -> int, k: int)
    ensures WithKey(Insert(x, s, key), key, k) ==
            (if key(x) == k then [x] else []) + WithKey(s, key, k)
  {
    if s != [] && key(s[0]) > key(x) {
      var tail := Insert(x, s[1..], key);
      InsertWithKey(x, s[1..], key, k);
      assert ([s[0]] + tail)[1..] == tail;
      var head := if key(s[0]) == k then [s[0]] else [];
      assert WithKey(Insert(x, s, key), key, k) == head + WithKey(tail, key, k);
      assert WithKey(s, key, k) == head + WithKey(s[1..], key, k);
      // `x` ranks below `s[0]`, so at most one of the two carries key `k`.
      if key(x) == k {
        assert head == [];
      }
    } else {
      assert ([x] + s)[1..] == s;
    }
  }

  /** The result is in non-increasing key order. */
  lemma {:induction false} SortDescSorted<T>(xs: seq<T>, key: T -> int)
    ensures SortedDesc(SortDesc(xs, key), key)
  {
    if xs != [] {
      SortDescSorted(xs[1..], key);
      InsertSorted(xs[0], SortDesc(xs[1..], key), key);
    }
  }

  /** Stability: for every key value, the elements carrying it come out in input order. */
  lemma {:induction false} SortDescStable<T>(xs: seq<T>, key: T -> int, k: int)
    ensures WithKey(SortDesc(xs, key), key, k) == WithKey(xs, key, k)
  {
    if xs != [] {
      SortDescStable(xs[1..], key, k);
      InsertWithKey(xs[0], SortDesc(xs[1..], key), key, k);
    }
  }

  lemma {:induction false} WithKeyAppend<T>(a: seq<T>, b: seq<T>, key: T -> int, k: int)
    ensures WithKey(a + b, key, k) == WithKey(a, key, k) + WithKey(b, key, k)
  {
    if a != [] {
      assert (a + b)[0] == a[0] && (a + b)[1..] == a[1..] + b;
      WithKeyAppend(a[1..], b, key, k);
    } else {
      assert a + b == b;
    }
  }

  /** The first `n` elements of the stable descending sort: the `n` largest keys, ties in input order. */
  function TopN<T>(xs: seq<T>, key: T -> int, n: nat): (r: seq<T>)
  {
    var s := SortDesc(xs, key);
    if |s| <= n then s else s[..n]
  }

  lemma SplitMultiset<T>(s: seq<T>, m: nat)
    requires m <= |s|
    ensures multiset(s) == multiset(s[..m]) + multiset(s[m..])
  {
    assert s == s[..m] + s[m..];
  }

  /** Nothing dropped by the cut-off outranks anything kept. */
  lemma {:induction false} TopNKeepsLargest<T>(xs: seq<T>, key: T -> int, n: nat)
    ensures multiset(TopN(xs, key, n)) <= multiset(xs)
    ensures forall y, z :: y in multiset(xs) - multiset(TopN(xs, key, n)) && z in TopN(xs, key, n) ==> key(y) <= key(z)
  {
    var s := SortDesc(xs, key);
    SortDescSorted(xs, key);
    var m := if |s| <= n then |s| else n;
    SplitMultiset(s, m);
    var top, rest := s[..m], s[m..];
    assert TopN(xs, key, n) == top;
    forall y, z | y in multiset(xs) - multiset(top) && z in top ensures key(y) <= key(z) {
      assert y in rest;
      var i :| 0 <= i < |rest| && rest[i] == y;
      var j :| 0 <= j < |top| && top[j] == z;
      assert s[m + i] == y && s[j] == z;
    }
  }

  /** Among equal keys, the kept elements are the first ones of the input. */
  lemma {:induction false} TopNStable<T>(xs: seq<T>, key: T -> int, n: nat, k: int)
    ensures WithKey(TopN(xs, key, n), key, k) <= WithKey(xs, key, k)
  {
    var s := SortDesc(xs, key);
    var m := if |s| <= n then |s| else n;
    assert s == s[..m] + s[m..];
    SortDescStable(xs, key, k);
    WithKeyAppend(s[..m], s[m..], key, k);
  }

  /** The cut-off keeps min(n, |xs|) elements. */
  lemma TopNLength<T>(xs: seq<T>, key: T -> int, n: nat)
    ensures |TopN(xs, key, n)| == if |xs| <= n then |xs| else n
  {
    var s := SortDesc(xs, key);
    assert |s| == |multiset(s)| == |xs|;
  }

  /**
   * `sorted(xs, key, reverse=True)[:n]` keeps min(n, |xs|) elements of `xs`,
   * in non-increasing key order; no dropped element has a larger key than a
   * kept one; and for each key value the kept elements are the first ones
   * with that key in `xs`.
   */
  lemma {:induction false} TopNSpec<T>(xs: seq<T>, key: T -> int, n: nat)
    ensures |TopN(xs, key, n)| == if |xs| <= n then |xs| else n
    ensures SortedDesc(TopN(xs, key, n), key)
    ensures multiset(TopN(xs, key, n)) <= multiset(xs)
    ensures forall y, z :: y in multiset(xs) - multiset(TopN(xs, key, n)) && z in TopN(xs, key, n) ==> key(y) <= key(z)
    ensures forall k :: WithKey(TopN(xs, key, n), key, k) <= WithKey(xs, key, k)
  {
    TopNLength(xs, key, n);
    assert SortedDesc(TopN(xs, key, n), key) by {
      SortDescSorted(xs, key);
    }
    TopNKeepsLargest(xs, key, n);
    forall k ensures WithKey(TopN(xs, key, n), key, k) <= WithKey(xs, key, k) {
      TopNStable(xs, key, n, k);
    }
  }
}
