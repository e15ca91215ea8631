/** Receipts: the strict decoder the chunk relation uses, its lazy reader, and the TypeScript codec. */
module Receipts {
  import opened Prelude
  import opened Rlp
  import opened Volume
  import V = RlpTree
  import BigEndian

  datatype Receipt = Receipt(envelope: Option<byte>, success: bool, gas: u64, bloom: Bytes, logs: seq<Log>)

  datatype Stats = Stats(envelope: Option<byte>, success: bool, gas: u64, logCount: nat)

  // ----- the canonical form -----

  predicate SupportedEnvelope(b: byte) {
    b == 0x01 || b == 0x02 || b == 0x6a
  }

  function StrValues(strings: seq<Bytes>): (vs: seq<V.Value>)
    ensures |vs| == |strings|
  {
    seq(|strings|, i requires 0 <= i < |strings| => V.Str(strings[i]))
  }

  function LogValue(log: Log): V.Value {
    V.List([V.Str(log.emitter), V.List(StrValues(log.topics)), V.Str(log.data)])
  }

  function LogValues(logs: seq<Log>): (vs: seq<V.Value>)
    ensures |vs| == |logs|
  {
    seq(|logs|, i requires 0 <= i < |logs| => LogValue(logs[i]))
  }

  function StatusBytes(success: bool): Bytes {
    if success then [1] else []
  }

  function ReceiptValue(r: Receipt): V.Value {
    V.List([V.Str(StatusBytes(r.success)), V.Str(BigEndian.Minimal(r.gas)), V.Str(r.bloom), V.List(LogValues(r.logs))])
  }

  function EncodeReceipt(r: Receipt): Bytes {
    (if r.envelope.Some? then [r.envelope.value] else []) + V.Encode(ReceiptValue(r))
  }

  predicate ValidLog(log: Log) {
    |log.topics| <= 4
  }

  predicate ValidReceipt(r: Receipt) {
    && (r.envelope.Some? ==> SupportedEnvelope(r.envelope.value))
    && |r.bloom| == 256
    && (forall i :: 0 <= i < |r.logs| ==> ValidLog(r.logs[i]))
    && |V.Encode(ReceiptValue(r))| < U64_LIMIT
  }

  // ----- the decoder as a function -----

  function Exactly(encoded: Bytes, n: nat): Option<seq<Item>> {
    match ListItems(encoded)
    case Ok(items) => if |items| == n then Some(items) else None
    case Err(_) => None
  }

  function HashesOf(items: seq<Item>): (r: Option<seq<Hash>>)
    ensures r.Some? ==> |r.value| == |items|
  {
    if items == [] then Some([])
    else
      var front :- HashesOf(items[..|items| - 1]);
      var last := items[|items| - 1];
      if last.list || |last.data| != 32 then None else Some(front + [last.data])
  }

  function TopicsOf(raw: Bytes): Option<seq<Hash>> {
    match ListItems(raw)
    case Ok(items) => if |items| <= 4 then HashesOf(items) else None
    case Err(_) => None
  }

  function LogOf(raw: Bytes): Option<Log> {
    var parts :- Exactly(raw, 3);
    if parts[0].list || |parts[0].data| != 20 || parts[2].list then None
    else
      var topics :- TopicsOf(parts[1].raw);
      Some(Log(parts[0].data, topics, parts[2].data))
  }

  function LogsOf(items: seq<Item>): (r: Option<seq<Log>>)
    ensures r.Some? ==> |r.value| == |items|
  {
    if items == [] then Some([])
    else
      var front :- LogsOf(items[..|items| - 1]);
      var last :- LogOf(items[|items| - 1].raw);
      Some(front + [last])
  }

  function StatusOf(item: Item): Option<bool> {
    if item.list then None
    else if item.data == [] then Some(false)
    else if item.data == [1] then Some(true)
    else None
  }

  function GasOf(item: Item): (r: Option<u64>)
  {
    if item.list || |item.data| > 8 || (item.data != [] && item.data[0] == 0) then None
    else
      LengthNeverOverflows(item.data);
      Some(BigEndian.Value(item.data))
  }

  function EnvelopeOf(encoded: Bytes): Option<(Option<byte>, Bytes)> {
    if encoded == [] then None
    else if encoded[0] >= 0xc0 then Some((None, encoded))
    else if SupportedEnvelope(encoded[0]) then Some((Some(encoded[0]), encoded[1..]))
    else None
  }

  function DecodeBody(envelope: Option<byte>, payload: Bytes): Option<Receipt> {
    var fields :- Exactly(payload, 4);
    var success :- StatusOf(fields[0]);
    var gas :- GasOf(fields[1]);
    if fields[2].list || |fields[2].data| != 256 then None
    else
      match ListItems(fields[3].raw)
      case Err(_) => None
      case Ok(items) =>
        var logs :- LogsOf(items);
        Some(Receipt(envelope, success, gas, fields[2].data, logs))
  }

  function DecodeReceipt(encoded: Bytes): Option<Receipt> {
    var (envelope, payload) :- EnvelopeOf(encoded);
    DecodeBody(envelope, payload)
  }

  // ----- the decoder accepts exactly the canonical form -----

  /** The items of an encoded list of values. */
  function Tops(vs: seq<V.Value>): (items: seq<Item>)
    ensures |items| == |vs|
  {
    seq(|vs|, i requires 0 <= i < |vs| => V.TopItem(vs[i]))
  }

  lemma ListOfValues(raw: Bytes, vs: seq<V.Value>)
    ensures ListItems(raw) == Ok(Tops(vs)) <==> raw == V.Encode(V.List(vs)) && |raw| < U64_LIMIT
  {
    hide ListItems;
    V.JoinTops(vs, Tops(vs));
    ListCanonical(raw, Tops(vs));
    if raw == V.Encode(V.List(vs)) && |raw| < U64_LIMIT {
      EncodedPayload(vs);
      V.SplitEncoded(vs);
      SplitSound(V.EncodeAll(vs));
    }
  }

  lemma EncodedPayload(vs: seq<V.Value>)
    ensures |V.EncodeAll(vs)| <= |V.Encode(V.List(vs))|
  {
    assert |EncodeItem(true, V.EncodeAll(vs))| >= |V.EncodeAll(vs)|;
  }

  /** A valid item with the encoding of a value is its top item. */
  lemma ItemOfValue(item: Item, v: V.Value)
    requires item.Valid()
    ensures item == V.TopItem(v) <==> item.raw == V.Encode(v)
  {
    if item.raw == V.Encode(v) {
      V.TopItemValid(v);
      ReadItemComplete(item);
      ReadItemComplete(V.TopItem(v));
    }
  }

  lemma StringItem(item: Item, bytes: Bytes)
    requires item.Valid()
    ensures item == V.TopItem(V.Str(bytes)) <==> !item.list && item.data == bytes
  {
  }

  lemma {:induction false} HashesCanonical(items: seq<Item>, hashes: seq<Hash>)
    requires AllValid(items)
    ensures HashesOf(items) == Some(hashes) <==> items == Tops(StrValues(hashes))
  {
    hide V.TopItem;
    if |items| == |hashes| && items != [] {
      var n := |items| - 1;
      HashesCanonical(items[..n], hashes[..n]);
      StringItem(items[n], hashes[n]);
      assert items == items[..n] + [items[n]] && hashes == hashes[..n] + [hashes[n]];
      assert Tops(StrValues(hashes)) == Tops(StrValues(hashes[..n])) + [V.TopItem(V.Str(hashes[n]))];
    }
  }

  lemma TopicsCanonical(raw: Bytes, topics: seq<Hash>)
    ensures TopicsOf(raw) == Some(topics) <==>
            |topics| <= 4 && raw == V.Encode(V.List(StrValues(topics))) && |raw| < U64_LIMIT
  {
    hide V.Encode;
    ListOfValues(raw, StrValues(topics));
    if ListItems(raw).Ok? {
      ListCanonical(raw, ListItems(raw).value);
      HashesCanonical(ListItems(raw).value, topics);
    }
  }

  /** The reader accepts a log exactly when it is the one encoding of a log with at most four topics. */
  lemma LogCanonical(raw: Bytes, log: Log)
    ensures LogOf(raw) == Some(log) <==> ValidLog(log) && raw == V.Encode(LogValue(log)) && |raw| < U64_LIMIT
  {
    hide V.Encode;
    hide V.TopItem;
    hide ListItems;
    hide TopicsOf;
    var vs := LogValue(log).items;
    ListOfValues(raw, vs);
    if ListItems(raw).Ok? {
      var parts := ListItems(raw).value;
      ListCanonical(raw, parts);
      if |parts| == 3 {
        StringItem(parts[0], log.emitter);
        StringItem(parts[2], log.data);
        ItemOfValue(parts[1], vs[1]);
        TopicsCanonical(parts[1].raw, log.topics);
        ListPartsShort(raw, parts);
        assert parts == Tops(vs) <==>
               parts[0] == V.TopItem(vs[0]) && parts[1] == V.TopItem(vs[1]) && parts[2] == V.TopItem(vs[2]);
      }
    }
  }

  lemma ListPartsShort(raw: Bytes, parts: seq<Item>)
    requires ListItems(raw) == Ok(parts)
    ensures |raw| < U64_LIMIT && forall i :: 0 <= i < |parts| ==> |parts[i].raw| < |raw|
  {
    ListCanonical(raw, parts);
    ItemsShrink(raw);
  }

  lemma {:induction false} LogsCanonical(items: seq<Item>, logs: seq<Log>)
    requires AllValid(items) && forall i :: 0 <= i < |items| ==> |items[i].raw| < U64_LIMIT
    ensures LogsOf(items) == Some(logs) <==>
            items == Tops(LogValues(logs)) && forall i :: 0 <= i < |logs| ==> ValidLog(logs[i])
  {
    hide V.TopItem;
    hide V.Encode;
    hide LogOf;
    hide LogValue;
    if |items| == |logs| && items != [] {
      var n := |items| - 1;
      LogsCanonical(items[..n], logs[..n]);
      LogCanonical(items[n].raw, logs[n]);
      ItemOfValue(items[n], LogValue(logs[n]));
      assert items == items[..n] + [items[n]] && logs == logs[..n] + [logs[n]];
      assert Tops(LogValues(logs)) == Tops(LogValues(logs[..n])) + [V.TopItem(LogValue(logs[n]))];
    }
  }

  lemma LogListCanonical(raw: Bytes, logs: seq<Log>)
    requires |raw| < U64_LIMIT
    ensures (ListItems(raw).Ok? && LogsOf(ListItems(raw).value) == Some(logs)) <==>
            raw == V.Encode(V.List(LogValues(logs))) && forall i :: 0 <= i < |logs| ==> ValidLog(logs[i])
  {
    hide V.Encode;
    hide LogOf;
    ListOfValues(raw, LogValues(logs));
    if ListItems(raw).Ok? {
      ListCanonical(raw, ListItems(raw).value);
      ListPartsShort(raw, ListItems(raw).value);
      LogsCanonical(ListItems(raw).value, logs);
    }
  }

  lemma StatusCanonical(item: Item, success: bool)
    requires item.Valid()
    ensures StatusOf(item) == Some(success) <==> item == V.TopItem(V.Str(StatusBytes(success)))
  {
    StringItem(item, StatusBytes(success));
    hide V.TopItem;
  }

  lemma GasCanonical(item: Item, gas: u64)
    requires item.Valid()
    ensures GasOf(item) == Some(gas) <==> item == V.TopItem(V.Str(BigEndian.Minimal(gas)))
  {
    StringItem(item, BigEndian.Minimal(gas));
    BigEndian.ValueOfMinimal(gas);
    BigEndian.MinimalWidth(gas, 8);
    BigEndian.PowersOf256();
    if item.data == [] || item.data[0] != 0 {
      BigEndian.MinimalOfValue(item.data);
    }
    hide V.TopItem;
    hide BigEndian.Value;
    hide BigEndian.Minimal;
  }

  lemma BodyCanonical(payload: Bytes, r: Receipt)
    ensures DecodeBody(r.envelope, payload) == Some(r) <==>
            && |r.bloom| == 256 && (forall i :: 0 <= i < |r.logs| ==> ValidLog(r.logs[i]))
            && payload == V.Encode(ReceiptValue(r)) && |payload| < U64_LIMIT
  {
    hide V.Encode;
    hide V.TopItem;
    hide ListItems;
    hide StatusOf;
    hide GasOf;
    hide LogsOf;
    var vs := ReceiptValue(r).items;
    ListOfValues(payload, vs);
    if ListItems(payload).Ok? {
      var fields := ListItems(payload).value;
      ListCanonical(payload, fields);
      if |fields| == 4 {
        StatusCanonical(fields[0], r.success);
        GasCanonical(fields[1], r.gas);
        StringItem(fields[2], r.bloom);
        ListPartsShort(payload, fields);
        ItemOfValue(fields[3], vs[3]);
        LogListCanonical(fields[3].raw, r.logs);
        assert fields == Tops(vs) <==>
               fields[0] == V.TopItem(vs[0]) && fields[1] == V.TopItem(vs[1]) && fields[2] == V.TopItem(vs[2])
               && fields[3] == V.TopItem(vs[3]);
      }
    }
  }

  /** A list encoding starts where receipts without an envelope byte start. */
  lemma ListStart(vs: seq<V.Value>)
    ensures var e := V.Encode(V.List(vs)); e != [] && e[0] >= 0xc0
  {
    var n := |V.EncodeAll(vs)|;
    assert V.Encode(V.List(vs))[0] == Header(true, n)[0];
  }

  /** The strict decoder accepts exactly the canonical encodings of valid receipts. */
  lemma ReceiptCanonical(encoded: Bytes, r: Receipt)
    ensures DecodeReceipt(encoded) == Some(r) <==> ValidReceipt(r) && encoded == EncodeReceipt(r)
  {
    hide V.Encode;
    hide DecodeBody;
    hide LogValues;
    var body := V.Encode(ReceiptValue(r));
    ListStart(ReceiptValue(r).items);
    match EnvelopeOf(encoded) {
      case None => assert ValidReceipt(r) ==> encoded != EncodeReceipt(r);
      case Some((envelope, payload)) =>
        if envelope == r.envelope {
          BodyCanonical(payload, r);
          assert encoded == (if envelope.Some? then [envelope.value] else []) + payload;
          SamePrefix(encoded, envelope, payload, body);
        } else {
          BodyEnvelope(envelope, payload);
        }
    }
  }

  lemma SamePrefix(encoded: Bytes, envelope: Option<byte>, payload: Bytes, body: Bytes)
    requires encoded == (if envelope.Some? then [envelope.value] else []) + payload
    ensures encoded == (if envelope.Some? then [envelope.value] else []) + body <==> payload == body
  {
    if envelope.Some? {
      assert ([envelope.value] + payload)[1..] == payload;
      assert ([envelope.value] + body)[1..] == body;
    } else {
      assert [] + payload == payload && [] + body == body;
    }
  }

  lemma BodyEnvelope(envelope: Option<byte>, payload: Bytes)
    ensures DecodeBody(envelope, payload).Some? ==> DecodeBody(envelope, payload).value.envelope == envelope
  {
  }
}
