/**
 * A Python `dict` keyed by strings: a map together with the order in which
 * its keys were first inserted. Assigning to a key already present replaces
 * the value and keeps the key's position, as Python does.
 */
module Dicts {
  import opened Wrappers
  import opened Seqs

  datatype Dict<V> = Dict(entries: map<string, V>, order: seq<string>) {

    /** Every key listed once, and the listed keys are exactly the map's keys. */
    ghost predicate Valid()
    {
      NoDup(order) && forall k :: k in entries <==> k in order
    }

    /** `d[k] = v`. */
    function Put(k: string, v: V): Dict<V>
    {
      Dict(entries[k := v], if k in entries then order else order + [k])
    }

    /** `d.get(k)`: `None` for a missing key. */
    function Get(k: string): (r: Option<V>)
      ensures r.Some? <==> k in entries
      ensures r.Some? ==> r.value == entries[k]
    {
      if k in entries then Some(entries[k]) else None
    }

    /** `list(d.values())`: the values in key insertion order. */
    function Values(): (vs: seq<V>)
      requires Valid()
      ensures |vs| == |order|
      ensures forall i :: 0 <= i < |order| ==> vs[i] == entries[order[i]]
    {
      seq(|order|, i requires 0 <= i < |order| => entries[order[i]])
    }
  }

  /**
   * Assignment keeps the dictionary well formed. A new key goes to the end;
   * an existing key keeps its place and every other key keeps its value.
   */
  lemma PutValid<V>(d: Dict<V>, k: string, v: V)
    requires d.Valid()
    ensures d.Put(k, v).Valid()
    ensures d.Put(k, v).entries.Keys == d.entries.Keys + {k}
    ensures d.Put(k, v).entries[k] == v
    ensures forall j :: j in d.entries && j != k ==> d.Put(k, v).entries[j] == d.entries[j]
    ensures d.order <= d.Put(k, v).order
  {
    var d' := d.Put(k, v);
    if k !in d.entries {
      assert forall i :: 0 <= i < |d.order| ==> d'.order[i] == d.order[i];
    }
  }

  /**
   * The values after an assignment: a new key's value is appended, an
   * existing key's value is replaced in its old position.
   */
  lemma PutValues<V>(d: Dict<V>, k: string, v: V)
    requires d.Valid()
    ensures d.Put(k, v).Valid()
    ensures k !in d.entries ==> d.Put(k, v).Values() == d.Values() + [v]
    ensures forall i :: 0 <= i < |d.order| && d.order[i] == k ==>
              d.Put(k, v).Values() == d.Values()[i := v]
  {
    PutValid(d, k, v);
    var d' := d.Put(k, v);
    if k !in d.entries {
      assert d'.Values() == d.Values() + [v];
    } else {
      forall i | 0 <= i < |d.order| && d.order[i] == k ensures d'.Values() == d.Values()[i := v] {
        forall j | 0 <= j < |d.order| ensures d'.Values()[j] == d.Values()[i := v][j] {
          if j != i {
            assert d.order[j] != k;
          }
        }
      }
    }
  }

  /** `[d.get(f) for f in ids]` without the `None`s: the stored values of the present keys, in order. */
  function Present<V(!new)>(m: map<string, V>, ids: seq<Option<string>>): (vs: seq<V>)
    ensures |vs| <= |ids|
    ensures forall v :: v in vs <==> exists x :: Some(x) in ids && x in m && m[x] == v
  {
    if ids == [] then []
    else
      var rest := Present(m, ids[1..]);
      assert forall o :: o in ids <==> o == ids[0] || o in ids[1..];
      if ids[0].Some? && ids[0].value in m then [m[ids[0].value]] + rest else rest
  }

  /** The lookups commute with concatenation, so the values keep the order and number of their ids. */
  lemma {:induction false} PresentAppend<V(!new)>(m: map<string, V>, a: seq<Option<string>>, b: seq<Option<string>>)
    ensures Present(m, a + b) == Present(m, a) + Present(m, b)
  {
    if a != [] {
      assert (a + b)[0] == a[0] && (a + b)[1..] == a[1..] + b;
      PresentAppend(m, a[1..], b);
    } else {
      assert a + b == b;
    }
  }
}
