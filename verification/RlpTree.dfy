/** Nested RLP values and their canonical encoding, as the TypeScript side writes and reads
    whole trie nodes and receipts. */
module RlpTree {
  import opened Prelude
  import opened Rlp

  datatype Value = Str(bytes: Bytes) | List(items: seq<Value>)

  function Encode(v: Value): Bytes
    decreases v, 1
  {
    match v
    case Str(bytes) => EncodeItem(false, bytes)
    case List(items) => EncodeItem(true, EncodeAll(items))
  }

  function EncodeAll(vs: seq<Value>): Bytes
    decreases vs, 0
  {
    if vs == [] then [] else Encode(vs[0]) + EncodeAll(vs[1..])
  }

  /** Decodes nested canonical RLP; anything else is an error. */
  function Decode(encoded: Bytes): Result<Value, RlpError>
    decreases |encoded|, 0
  {
    var item :- ReadItem(encoded);
    if !item.list then Ok(Str(item.data))
    else
      var items :- DecodeAll(item.data);
      Ok(List(items))
  }

  function DecodeAll(payload: Bytes): Result<seq<Value>, RlpError>
    decreases |payload|, 1
  {
    if payload == [] then Ok([])
    else
      var s :- Prefix(payload);
      var first :- Decode(payload[..s.off + s.len]);
      var rest :- DecodeAll(payload[s.off + s.len..]);
      Ok([first] + rest)
  }

  /** The encoded item at the top of a value. */
  function TopItem(v: Value): Item {
    match v
    case Str(bytes) => Item(Encode(v), bytes, false)
    case List(items) => Item(Encode(v), EncodeAll(items), true)
  }

  lemma TopItemValid(v: Value)
    requires |Encode(v)| < U64_LIMIT
    ensures TopItem(v).Valid()
  {
  }

  lemma EncodeAllCons(v: Value, vs: seq<Value>)
    ensures EncodeAll([v] + vs) == Encode(v) + EncodeAll(vs)
  {
    assert ([v] + vs)[1..] == vs;
  }

  lemma {:induction false} EncodeAllConcat(a: seq<Value>, b: seq<Value>)
    ensures EncodeAll(a + b) == EncodeAll(a) + EncodeAll(b)
    decreases |a|
  {
    if a == [] {
      assert a + b == b;
    } else {
      hide *;
      EncodeAllConcat(a[1..], b);
      EncodeAllCons(a[0], a[1..]);
      EncodeAllCons(a[0], a[1..] + b);
      Rebracket(a, b);
      Associative(Encode(a[0]), EncodeAll(a[1..]), EncodeAll(b));
    }
  }

  lemma Rebracket(a: seq<Value>, b: seq<Value>)
    requires a != []
    ensures a == [a[0]] + a[1..] && a + b == [a[0]] + (a[1..] + b)
  {
  }

  lemma Associative(a: Bytes, b: Bytes, c: Bytes)
    ensures a + (b + c) == a + b + c
  {
  }

  lemma {:induction false} EncodeAllBound(vs: seq<Value>, i: nat)
    requires i < |vs|
    ensures |Encode(vs[i])| <= |EncodeAll(vs)|
  {
    if i > 0 {
      EncodeAllBound(vs[1..], i - 1);
    }
  }

  /** A payload of encoded values is read as exactly the top items of these values. */
  lemma {:induction false} SplitEncoded(vs: seq<Value>)
    requires |EncodeAll(vs)| < U64_LIMIT
    ensures SplitItems(EncodeAll(vs)) == Ok(seq(|vs|, i requires 0 <= i < |vs| => TopItem(vs[i])))
  {
    var items := seq(|vs|, i requires 0 <= i < |vs| => TopItem(vs[i]));
    forall i | 0 <= i < |items| ensures items[i].Valid() {
      EncodeAllBound(vs, i);
      TopItemValid(vs[i]);
    }
    JoinTops(vs, items);
    SplitComplete(items);
  }

  /** The items of an encoded list. */
  lemma ItemsOfEncoded(vs: seq<Value>)
    requires |Encode(List(vs))| < U64_LIMIT
    ensures ListItems(Encode(List(vs))) == Ok(seq(|vs|, i requires 0 <= i < |vs| => TopItem(vs[i])))
  {
    assert |EncodeAll(vs)| <= |EncodeItem(true, EncodeAll(vs))|;
    SplitEncoded(vs);
    TopItemValid(List(vs));
    ReadItemComplete(TopItem(List(vs)));
    hide Encode;
    hide EncodeAll;
    hide SplitItems;
  }

  lemma {:induction false} JoinTops(vs: seq<Value>, items: seq<Item>)
    requires |items| == |vs| && forall i :: 0 <= i < |vs| ==> items[i] == TopItem(vs[i])
    ensures Join(items) == EncodeAll(vs)
  {
    if vs != [] {
      JoinTops(vs[1..], items[1..]);
    }
  }

  /** Decoding inverts encoding. */
  lemma {:induction false} DecodeEncode(v: Value)
    requires |Encode(v)| < U64_LIMIT
    ensures Decode(Encode(v)) == Ok(v)
    decreases v, 1
  {
    TopItemValid(v);
    ReadItemComplete(TopItem(v));
    if v.List? {
      DecodeEncodeAll(v.items);
    }
  }

  lemma {:induction false} DecodeEncodeAll(vs: seq<Value>)
    requires |EncodeAll(vs)| < U64_LIMIT
    ensures DecodeAll(EncodeAll(vs)) == Ok(vs)
    decreases vs, 0
  {
    if vs != [] {
      var first, rest := vs[0], vs[1..];
      DecodeEncode(first);
      DecodeEncodeAll(rest);
      TopItemValid(first);
      PrefixComplete(TopItem(first).list, TopItem(first).data, EncodeAll(rest));
      var all := EncodeAll(vs);
      assert all[..|Encode(first)|] == Encode(first);
      assert all[|Encode(first)|..] == EncodeAll(rest);
      assert vs == [first] + rest;
    }
  }

  /** Encoding inverts decoding: only canonical input is accepted. */
  lemma {:induction false} EncodeDecode(encoded: Bytes)
    requires Decode(encoded).Ok?
    ensures Encode(Decode(encoded).value) == encoded && |encoded| < U64_LIMIT
    decreases |encoded|, 0
  {
    ReadItemSound(encoded);
    var item := ReadItem(encoded).value;
    if item.list {
      EncodeDecodeAll(item.data);
    }
  }

  lemma {:induction false} EncodeDecodeAll(payload: Bytes)
    requires DecodeAll(payload).Ok?
    ensures EncodeAll(DecodeAll(payload).value) == payload
    decreases |payload|, 1
  {
    if payload != [] {
      var raw, rest := DecodeAllFirst(payload);
      hide *;
      EncodeDecode(raw);
      EncodeDecodeAll(rest);
      EncodeAllCons(Decode(raw).value, DecodeAll(rest).value);
    }
  }

  lemma DecodeAllFirst(payload: Bytes) returns (raw: Bytes, rest: Bytes)
    requires payload != [] && DecodeAll(payload).Ok?
    ensures payload == raw + rest && |raw| <= |payload| && |rest| < |payload|
    ensures Decode(raw).Ok? && DecodeAll(rest).Ok?
    ensures DecodeAll(payload).value == [Decode(raw).value] + DecodeAll(rest).value
  {
    hide Decode;
    hide Prefix;
    var s := Prefix(payload).value;
    raw, rest := payload[..s.off + s.len], payload[s.off + s.len..];
  }

  /** Nested decoding succeeds on exactly the canonical encodings, with the encoded value. */
  lemma DecodeCanonical(encoded: Bytes, v: Value)
    ensures Decode(encoded) == Ok(v) <==> Encode(v) == encoded && |encoded| < U64_LIMIT
  {
    if Decode(encoded) == Ok(v) {
      EncodeDecode(encoded);
    }
    if Encode(v) == encoded && |encoded| < U64_LIMIT {
      DecodeEncode(v);
    }
  }
}
