/**
 * The JSON values a cache file holds, and the conversions between them and
 * the typed fields of the records. A decoder answers `None` when the value
 * does not have the field's shape.
 */
module Json {
  import opened Wrappers

  datatype Json =
    | JNull
    | JStr(str: string)
    | JInt(num: int)
    | JBool(flag: bool)
    | JList(items: seq<Json>)
    | JObj(fields: map<string, Json>)

  /** `d[k]` for a cache dictionary, decoded; `None` for a missing key (Python's KeyError). */
  function Read<T>(d: map<string, Json>, k: string, dec: Json -> Option<T>): Option<T>
  {
    if k in d then dec(d[k]) else None
  }

  function EncStr(s: string): Json { JStr(s) }

  function DecStr(j: Json): Option<string>
  {
    if j.JStr? then Some(j.str) else None
  }

  function EncOptStr(o: Option<string>): Json
  {
    match o
    case None => JNull
    case Some(s) => JStr(s)
  }

  function DecOptStr(j: Json): Option<Option<string>>
  {
    match j
    case JNull => Some(None)
    case JStr(s) => Some(Some(s))
    case _ => None
  }

  function EncOptInt(o: Option<int>): Json
  {
    match o
    case None => JNull
    case Some(n) => JInt(n)
  }

  function DecOptInt(j: Json): Option<Option<int>>
  {
    match j
    case JNull => Some(None)
    case JInt(n) => Some(Some(n))
    case _ => None
  }

  function EncOptBool(o: Option<bool>): Json
  {
    match o
    case None => JNull
    case Some(b) => JBool(b)
  }

  function DecOptBool(j: Json): Option<Option<bool>>
  {
    match j
    case JNull => Some(None)
    case JBool(b) => Some(Some(b))
    case _ => None
  }

  function DecRaw(j: Json): Option<Json> { Some(j) }

  function EncItems<T>(xs: seq<T>, enc: T -> Json): seq<Json>
  {
    if xs == [] then [] else [enc(xs[0])] + EncItems(xs[1..], enc)
  }

  function DecItems<T>(items: seq<Json>, dec: Json -> Option<T>): Option<seq<T>>
  {
    if items == [] then Some([])
    else
      var x :- dec(items[0]);
      var rest :- DecItems(items[1..], dec);
      Some([x] + rest)
  }

  function EncStrList(xs: seq<string>): Json { JList(EncItems(xs, EncStr)) }

  function DecStrList(j: Json): Option<seq<string>>
  {
    if j.JList? then DecItems(j.items, DecStr) else None
  }

  function EncOptStrList(xs: seq<Option<string>>): Json { JList(EncItems(xs, EncOptStr)) }

  function DecOptStrList(j: Json): Option<seq<Option<string>>>
  {
    if j.JList? then DecItems(j.items, DecOptStr) else None
  }

  /** A list decoder undoes its encoder when the element decoder undoes the element encoder. */
  lemma {:induction false} ItemsRoundTrip<T>(xs: seq<T>, enc: T -> Json, dec: Json -> Option<T>)
    requires forall x :: dec(enc(x)) == Some(x)
    ensures DecItems(EncItems(xs, enc), dec) == Some(xs)
  {
    if xs != [] {
      ItemsRoundTrip(xs[1..], enc, dec);
      assert EncItems(xs, enc)[1..] == EncItems(xs[1..], enc);
      assert [xs[0]] + xs[1..] == xs;
    }
  }

  /** What a list decoder accepts, the list encoder writes back unchanged. */
  lemma {:induction false} ItemsCanonical<T>(items: seq<Json>, xs: seq<T>, enc: T -> Json, dec: Json -> Option<T>)
    requires forall j, x :: dec(j) == Some(x) ==> enc(x) == j
    requires DecItems(items, dec) == Some(xs)
    ensures EncItems(xs, enc) == items
  {
    if items != [] {
      var x := dec(items[0]).value;
      var rest := DecItems(items[1..], dec).value;
      assert xs == [x] + rest;
      ItemsCanonical(items[1..], rest, enc, dec);
      assert xs[1..] == rest;
      assert [items[0]] + items[1..] == items;
    }
  }

  /** Every field codec: decoding an encoded value gives it back. */
  lemma CodecsRoundTrip()
    ensures forall s :: DecStr(EncStr(s)) == Some(s)
    ensures forall o :: DecOptStr(EncOptStr(o)) == Some(o)
    ensures forall o :: DecOptInt(EncOptInt(o)) == Some(o)
    ensures forall o :: DecOptBool(EncOptBool(o)) == Some(o)
    ensures forall xs :: DecStrList(EncStrList(xs)) == Some(xs)
    ensures forall xs :: DecOptStrList(EncOptStrList(xs)) == Some(xs)
  {
    forall xs: seq<string> ensures DecStrList(EncStrList(xs)) == Some(xs) {
      ItemsRoundTrip(xs, EncStr, DecStr);
    }
    forall xs: seq<Option<string>> ensures DecOptStrList(EncOptStrList(xs)) == Some(xs) {
      ItemsRoundTrip(xs, EncOptStr, DecOptStr);
    }
  }

  /** Every field codec: a value the decoder accepts is exactly the encoding of its result. */
  lemma CodecsCanonical()
    ensures forall j, s :: DecStr(j) == Some(s) ==> EncStr(s) == j
    ensures forall j, o :: DecOptStr(j) == Some(o) ==> EncOptStr(o) == j
    ensures forall j, o :: DecOptInt(j) == Some(o) ==> EncOptInt(o) == j
    ensures forall j, o :: DecOptBool(j) == Some(o) ==> EncOptBool(o) == j
    ensures forall j, xs :: DecStrList(j) == Some(xs) ==> EncStrList(xs) == j
    ensures forall j, xs :: DecOptStrList(j) == Some(xs) ==> EncOptStrList(xs) == j
  {
    forall j, xs | DecStrList(j) == Some(xs) ensures EncStrList(xs) == j {
      ItemsCanonical(j.items, xs, EncStr, DecStr);
    }
    forall j, xs | DecOptStrList(j) == Some(xs) ensures EncOptStrList(xs) == j {
      ItemsCanonical(j.items, xs, EncOptStr, DecOptStr);
    }
  }
}
