/**
 * List idioms of the source on `seq`: comprehension filters, `list(set(...))`,
 * flattening, and numpy-style selection of positions.
 */
module Seqs {
  import opened Wrappers

  ghost predicate NoDup<T>(xs: seq<T>)
  {
    forall i, j :: 0 <= i < j < |xs| ==> xs[i] != xs[j]
  }

  /** In a list without repeats an element occurs once or not at all. */
  lemma {:induction false} NoDupCount<T>(xs: seq<T>, x: T)
    requires NoDup(xs)
    ensures multiset(xs)[x] == if x in xs then 1 else 0
  {
    if xs != [] {
      assert xs == [xs[0]] + xs[1..];
      assert xs[0] !in xs[1..];
      NoDupCount(xs[1..], x);
    }
  }

  /** Appending an element keeps a list free of repeats exactly when the element is new. */
  lemma NoDupSnoc<T>(xs: seq<T>, x: T)
    ensures NoDup(xs + [x]) <==> NoDup(xs) && x !in xs
  {
    var ys := xs + [x];
    if NoDup(ys) {
      forall i, j | 0 <= i < j < |xs| ensures xs[i] != xs[j] {
        assert xs[i] == ys[i] && xs[j] == ys[j];
      }
      forall i | 0 <= i < |xs| ensures xs[i] != x {
        assert xs[i] == ys[i] && x == ys[|xs|];
      }
    }
  }

  /** Putting an element in front keeps a list free of repeats exactly when the element is new. */
  lemma NoDupCons<T>(x: T, xs: seq<T>)
    ensures NoDup([x] + xs) <==> NoDup(xs) && x !in xs
  {
    var ys := [x] + xs;
    if NoDup(ys) {
      forall i, j | 0 <= i < j < |xs| ensures xs[i] != xs[j] {
        assert xs[i] == ys[i + 1] && xs[j] == ys[j + 1];
      }
      forall i | 0 <= i < |xs| ensures xs[i] != x {
        assert xs[i] == ys[i + 1] && x == ys[0];
      }
    }
  }

  /** In three lists without repeats, joined, an element occurs once per list that holds it. */
  lemma NoDupCount3<T>(a: seq<T>, b: seq<T>, c: seq<T>, x: T)
    requires NoDup(a) && NoDup(b) && NoDup(c)
    ensures multiset(a + b + c)[x] == (if x in a then 1 else 0) + (if x in b then 1 else 0) + (if x in c then 1 else 0)
  {
    NoDupCount(a, x);
    NoDupCount(b, x);
    NoDupCount(c, x);
  }

  /** `[f(x) for x in xs]`. */
  function Map<T, U>(xs: seq<T>, f: T -> U): (ys: seq<U>)
    ensures |ys| == |xs|
    ensures forall k :: 0 <= k < |xs| ==> ys[k] == f(xs[k])
  {
    seq(|xs|, k requires 0 <= k < |xs| => f(xs[k]))
  }

  lemma PrefixTrans<T>(a: seq<T>, b: seq<T>, c: seq<T>)
    requires a <= b && b <= c
    ensures a <= c
  {
    assert c[..|a|] == b[..|a|];
  }

  /** `out` holds, in order, what `f` yields for the first `|out|` items of `ins`. */
  ghost predicate YieldsPrefix<E, R>(out: seq<R>, ins: seq<E>, f: E -> Option<R>)
  {
    |out| <= |ins| && forall k :: 0 <= k < |out| ==> f(ins[k]) == Some(out[k])
  }

  /** Appending what `f` yields for the next item extends the prefix by one. */
  lemma YieldsPrefixSnoc<E, R>(out: seq<R>, ins: seq<E>, f: E -> Option<R>, r: R)
    requires YieldsPrefix(out, ins, f) && |out| < |ins| && f(ins[|out|]) == Some(r)
    ensures YieldsPrefix(out + [r], ins, f)
  {
    var longer := out + [r];
    forall k | 0 <= k < |longer| ensures f(ins[k]) == Some(longer[k]) {
      if k < |out| {
        assert longer[k] == out[k];
      }
    }
  }

  /** `[x for x in xs if x is not None]`, unwrapped. */
  function Somes<T(!new)>(xs: seq<Option<T>>): (r: seq<T>)
    ensures |r| <= |xs|
    ensures forall x :: x in r <==> Some(x) in xs
    ensures None !in xs ==> |r| == |xs|
  {
    if xs == [] then []
    else
      var rest := Somes(xs[1..]);
      assert forall x :: Some(x) in xs <==> xs[0] == Some(x) || Some(x) in xs[1..];
      match xs[0]
      case Some(x) => [x] + rest
      case None => rest
  }

  /** Filtering commutes with concatenation, so the kept elements stay in their order. */
  lemma {:induction false} SomesAppend<T(!new)>(a: seq<Option<T>>, b: seq<Option<T>>)
    ensures Somes(a + b) == Somes(a) + Somes(b)
  {
    if a != [] {
      assert (a + b)[0] == a[0] && (a + b)[1..] == a[1..] + b;
      SomesAppend(a[1..], b);
    } else {
      assert a + b == b;
    }
  }

  /** The elements of `xs` once each, in order of first occurrence. */
  function Dedup<T(==,!new)>(xs: seq<T>): (r: seq<T>)
    ensures NoDup(r)
    ensures forall x :: x in r <==> x in xs
    decreases |xs|
  {
    if xs == [] then []
    else
      var last := xs[|xs| - 1];
      var front := Dedup(xs[..|xs| - 1]);
      assert forall x :: x in xs <==> x in xs[..|xs| - 1] || x == last;
      if last in front then front else front + [last]
  }

  /** `[x for x in xs if x != y]`. */
  function Without<T(==,!new)>(xs: seq<T>, y: T): (r: seq<T>)
    ensures forall x :: x in r <==> x in xs && x != y
    ensures NoDup(xs) ==> NoDup(r)
  {
    if xs == [] then []
    else
      var rest := Without(xs[1..], y);
      assert forall x :: x in xs <==> x == xs[0] || x in xs[1..];
      assert NoDup(xs) ==> xs[0] !in xs[1..];
      if xs[0] == y then rest else [xs[0]] + rest
  }

  /** `[x for xs in xss for x in xs]`. */
  function Flatten<T(!new)>(xss: seq<seq<T>>): (r: seq<T>)
    ensures forall x :: x in r <==> exists i :: 0 <= i < |xss| && x in xss[i]
  {
    if xss == [] then []
    else
      assert forall i :: 0 <= i < |xss[1..]| ==> xss[1..][i] == xss[i + 1];
      xss[0] + Flatten(xss[1..])
  }

  /** `[x for x in xs if p(x)]`. */
  function Filter<T>(xs: seq<T>, p: T -> bool): (r: seq<T>)
    ensures forall k :: 0 <= k < |r| ==> p(r[k])
    ensures forall x :: x in xs && p(x) ==> x in r
    ensures multiset(r) <= multiset(xs)
  {
    if xs == [] then []
    else
      var rest := Filter(xs[1..], p);
      assert xs == [xs[0]] + xs[1..];
      if p(xs[0]) then [xs[0]] + rest else rest
  }

  /** Filtering commutes with concatenation, so the kept elements keep their order and number. */
  lemma {:induction false} FilterAppend<T>(a: seq<T>, b: seq<T>, p: T -> bool)
    ensures Filter(a + b, p) == Filter(a, p) + Filter(b, p)
  {
    if a != [] {
      assert (a + b)[0] == a[0] && (a + b)[1..] == a[1..] + b;
      FilterAppend(a[1..], b, p);
    } else {
      assert a + b == b;
    }
  }

  /** `[i for i, x in enumerate(xs) if p(x)]`, counting positions from `from`. */
  function SelectFrom<T>(xs: seq<T>, p: T -> bool, from: nat): (r: seq<nat>)
    requires from <= |xs|
    ensures forall k :: 0 <= k < |r| ==> from <= r[k] < |xs| && p(xs[r[k]])
    ensures forall i :: from <= i < |xs| && p(xs[i]) ==> i in r
    ensures forall k, l :: 0 <= k < l < |r| ==> r[k] < r[l]
    decreases |xs| - from
  {
    if from == |xs| then []
    else
      var rest := SelectFrom(xs, p, from + 1);
      if p(xs[from]) then [from] + rest else rest
  }

  /** Strictly increasing, hence free of repeats. */
  ghost predicate Increasing(r: seq<nat>)
  {
    forall k, l :: 0 <= k < l < |r| ==> r[k] < r[l]
  }

  /** The positions of the elements of `xs` that satisfy `p`, in increasing order. */
  function Select<T>(xs: seq<T>, p: T -> bool): (r: seq<nat>)
    ensures forall k :: 0 <= k < |r| ==> r[k] < |xs| && p(xs[r[k]])
    ensures forall i :: 0 <= i < |xs| && p(xs[i]) ==> i in r
    ensures Increasing(r)
  {
    SelectFrom(xs, p, 0)
  }

  /** `numpy.array(xs)[idx].tolist()`. */
  function Pick<T>(xs: seq<T>, idx: seq<nat>): (r: seq<T>)
    requires forall k :: 0 <= k < |idx| ==> idx[k] < |xs|
    ensures |r| == |idx|
    ensures forall k :: 0 <= k < |idx| ==> r[k] == xs[idx[k]]
  {
    if idx == [] then [] else [xs[idx[0]]] + Pick(xs, idx[1..])
  }
}
