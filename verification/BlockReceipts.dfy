/** The TypeScript receipt codec and its agreement with the strict decoder. */
module BlockReceipts {
  import opened Prelude
  import opened Rlp
  import opened Volume
  import opened Receipts
  import V = RlpTree
  import BigEndian

  const MAX_RECEIPT_TYPE: nat := 0x7f

  /** A receipt as the RPC side holds it; all fields are unchecked numbers and strings. */
  datatype BlockReceipt = BlockReceipt(kind: int, status: int, gas: nat, bloom: Bytes, logs: seq<BlockLog>)

  /** The data of a decoded log is passed on unchecked, whether string or list. */
  datatype BlockLog = BlockLog(address: Bytes, topics: seq<Bytes>, data: V.Value)

  predicate EncodableLog(log: BlockLog) {
    |log.address| == 20 && log.data.Str? && forall i :: 0 <= i < |log.topics| ==> |log.topics[i]| == 32
  }

  predicate EncodableReceipt(r: BlockReceipt) {
    && 0 <= r.kind <= MAX_RECEIPT_TYPE && (r.status == 0 || r.status == 1) && |r.bloom| == 256
    && forall i :: 0 <= i < |r.logs| ==> EncodableLog(r.logs[i])
  }

  function BlockLogValue(log: BlockLog): V.Value {
    V.List([V.Str(log.address), V.List(StrValues(log.topics)), log.data])
  }

  function BlockLogValues(logs: seq<BlockLog>): (vs: seq<V.Value>)
    ensures |vs| == |logs|
  {
    seq(|logs|, i requires 0 <= i < |logs| => BlockLogValue(logs[i]))
  }

  function BlockReceiptValue(r: BlockReceipt): V.Value
    requires r.status >= 0
  {
    V.List([V.Str(BigEndian.Minimal(r.status)), V.Str(BigEndian.Minimal(r.gas)), V.Str(r.bloom),
            V.List(BlockLogValues(r.logs))])
  }

  function Encode(r: BlockReceipt): Option<Bytes> {
    if !EncodableReceipt(r) then None
    else
      var body := V.Encode(BlockReceiptValue(r));
      Some(if r.kind == 0 then body else [r.kind] + body)
  }

  // ----- decoding -----

  /** Strings of at most 32 bytes are numbers, leading zeros included. */
  function QuantityOf(v: V.Value): Option<nat> {
    if v.List? || |v.bytes| > 32 then None else Some(BigEndian.Value(v.bytes))
  }

  function SizedString(v: V.Value, size: nat): (r: Option<Bytes>)
    ensures r.Some? ==> |r.value| == size && v == V.Str(r.value)
  {
    if v.List? || |v.bytes| != size then None else Some(v.bytes)
  }

  function SizedStrings(vs: seq<V.Value>, size: nat): (r: Option<seq<Bytes>>)
    ensures r.Some? ==> |r.value| == |vs|
  {
    if vs == [] then Some([])
    else
      var front :- SizedStrings(vs[..|vs| - 1], size);
      var last :- SizedString(vs[|vs| - 1], size);
      Some(front + [last])
  }

  function BlockLogOf(v: V.Value): Option<BlockLog> {
    if v.Str? || |v.items| != 3 || v.items[1].Str? then None
    else
      var address :- SizedString(v.items[0], 20);
      var topics :- SizedStrings(v.items[1].items, 32);
      Some(BlockLog(address, topics, v.items[2]))
  }

  function BlockLogsOf(vs: seq<V.Value>): (r: Option<seq<BlockLog>>)
    ensures r.Some? ==> |r.value| == |vs|
  {
    if vs == [] then Some([])
    else
      var front :- BlockLogsOf(vs[..|vs| - 1]);
      var last :- BlockLogOf(vs[|vs| - 1]);
      Some(front + [last])
  }

  function Decode(encoded: Bytes): Option<BlockReceipt> {
    if encoded == [] then None
    else
      var typed := encoded[0] <= MAX_RECEIPT_TYPE;
      match V.Decode(if typed then encoded[1..] else encoded)
      case Err(_) => None
      case Ok(value) => DecodeFields(if typed then encoded[0] else 0, value)
  }

  function DecodeFields(kind: byte, value: V.Value): Option<BlockReceipt> {
    if value.Str? || |value.items| != 4 || value.items[3].Str? then None
    else
      var status :- QuantityOf(value.items[0]);
      if status != 0 && status != 1 then None
      else
        var logs :- BlockLogsOf(value.items[3].items);
        var gas :- QuantityOf(value.items[1]);
        var bloom :- SizedString(value.items[2], 256);
        Some(BlockReceipt(kind, status, gas, bloom, logs))
  }

  // ----- round trip -----

  lemma {:induction false} StringsBack(strings: seq<Bytes>, size: nat)
    requires forall i :: 0 <= i < |strings| ==> |strings[i]| == size
    ensures SizedStrings(StrValues(strings), size) == Some(strings)
  {
    if strings != [] {
      var front, last := strings[..|strings| - 1], strings[|strings| - 1];
      StringsBack(front, size);
      assert StrValues(strings)[..|strings| - 1] == StrValues(front);
      assert strings == front + [last];
    }
  }

  lemma LogBack(log: BlockLog)
    requires EncodableLog(log)
    ensures BlockLogOf(BlockLogValue(log)) == Some(log)
  {
    StringsBack(log.topics, 32);
  }

  lemma {:induction false} LogsBack(logs: seq<BlockLog>)
    requires forall i :: 0 <= i < |logs| ==> EncodableLog(logs[i])
    ensures BlockLogsOf(BlockLogValues(logs)) == Some(logs)
  {
    hide BlockLogOf;
    hide BlockLogValue;
    hide EncodableLog;
    if logs != [] {
      var front, last := logs[..|logs| - 1], logs[|logs| - 1];
      LogsBack(front);
      LogBack(last);
      assert BlockLogValues(logs)[..|logs| - 1] == BlockLogValues(front);
      assert logs == front + [last];
    }
  }

  /** Decoding gives an encoded receipt back exactly when its gas is a 256-bit number, and refuses it
      otherwise. */
  lemma DecodeEncode(r: BlockReceipt)
    requires EncodableReceipt(r)
    requires |V.Encode(BlockReceiptValue(r))| < U64_LIMIT
    ensures Encode(r).Some?
    ensures Decode(Encode(r).value) == if r.gas < BigEndian.Pow256(32) then Some(r) else None
  {
    var value := BlockReceiptValue(r);
    var body := V.Encode(value);
    V.DecodeEncode(value);
    ListStart(value.items);
    FieldsBack(r);
    hide V.Decode;
    hide V.Encode;
    hide BlockReceiptValue;
    hide DecodeFields;
    if r.kind != 0 {
      assert ([r.kind] + body)[1..] == body;
    }
  }

  lemma FieldsBack(r: BlockReceipt)
    requires EncodableReceipt(r)
    ensures DecodeFields(r.kind, BlockReceiptValue(r)) == if r.gas < BigEndian.Pow256(32) then Some(r) else None
  {
    hide QuantityOf;
    hide BigEndian.Minimal;
    hide BigEndian.Pow256;
    hide BlockLogsOf;
    hide BlockLogValues;
    hide EncodableLog;
    LogsBack(r.logs);
    QuantityBack(r.gas);
    SmallStatus(r.status);
    QuantityBack(r.status);
    var items := BlockReceiptValue(r).items;
    assert QuantityOf(items[0]) == Some(r.status);
    assert BlockLogsOf(items[3].items) == Some(r.logs);
    assert SizedString(items[2], 256) == Some(r.bloom);
  }

  lemma QuantityBack(n: nat)
    ensures QuantityOf(V.Str(BigEndian.Minimal(n))) == if n < BigEndian.Pow256(32) then Some(n) else None
  {
    hide BigEndian.Minimal;
    BigEndian.ValueOfMinimal(n);
    BigEndian.MinimalWidth(n, 32);
  }

  lemma SmallStatus(status: nat)
    requires status == 0 || status == 1
    ensures BigEndian.Minimal(status) == (if status == 1 then [1] else [])
    ensures status < BigEndian.Pow256(32)
  {
    BigEndian.PowersOf256();
    BigEndian.PowMonotone(1, 32);
    assert BigEndian.Minimal(0) == [];
    assert BigEndian.Minimal(1) == [1];
  }

  // ----- what the decoder accepts -----

  /** A log as the decoder checks it: its data may be a list. */
  predicate LooseLog(log: BlockLog) {
    |log.address| == 20 && forall i :: 0 <= i < |log.topics| ==> |log.topics[i]| == 32
  }

  /** The string encodes the receipt with these status and gas bytes, leading zeros included; a receipt of
      kind 0 may also carry its type byte. */
  predicate Written(encoded: Bytes, r: BlockReceipt, status: Bytes, gas: Bytes) {
    && |status| <= 32 && |gas| <= 32 && BigEndian.Value(status) == r.status && BigEndian.Value(gas) == r.gas
    && (r.status == 0 || r.status == 1) && |r.bloom| == 256 && 0 <= r.kind < 0x80
    && (forall i :: 0 <= i < |r.logs| ==> LooseLog(r.logs[i]))
    && var body := V.Encode(V.List([V.Str(status), V.Str(gas), V.Str(r.bloom), V.List(BlockLogValues(r.logs))]));
    && |body| < U64_LIMIT && (encoded == [r.kind] + body || (r.kind == 0 && encoded == body))
  }

  lemma {:induction false} StringsRead(vs: seq<V.Value>, strings: seq<Bytes>, size: nat)
    ensures SizedStrings(vs, size) == Some(strings) <==>
            vs == StrValues(strings) && forall i :: 0 <= i < |strings| ==> |strings[i]| == size
  {
    if |vs| == |strings| && vs != [] {
      var n := |vs| - 1;
      StringsRead(vs[..n], strings[..n], size);
      assert strings == strings[..n] + [strings[n]];
      LastString(vs, strings);
      hide StrValues;
    }
  }

  lemma LastString(vs: seq<V.Value>, strings: seq<Bytes>)
    requires |vs| == |strings| && vs != []
    ensures var n := |vs| - 1;
            vs == StrValues(strings) <==> vs[..n] == StrValues(strings[..n]) && vs[n] == V.Str(strings[n])
  {
    var n := |vs| - 1;
    assert vs == vs[..n] + [vs[n]];
    assert StrValues(strings) == StrValues(strings[..n]) + [V.Str(strings[n])];
  }

  lemma LogRead(v: V.Value, log: BlockLog)
    ensures BlockLogOf(v) == Some(log) <==> v == BlockLogValue(log) && LooseLog(log)
  {
    hide SizedStrings;
    if v.List? && |v.items| == 3 && v.items[1].List? {
      StringsRead(v.items[1].items, log.topics, 32);
      assert v.items == [v.items[0], v.items[1], v.items[2]];
    }
  }

  lemma {:induction false} LogsRead(vs: seq<V.Value>, logs: seq<BlockLog>)
    ensures BlockLogsOf(vs) == Some(logs) <==>
            vs == BlockLogValues(logs) && forall i :: 0 <= i < |logs| ==> LooseLog(logs[i])
  {
    hide BlockLogOf;
    hide BlockLogValue;
    hide LooseLog;
    if |vs| == |logs| && vs != [] {
      var n := |vs| - 1;
      LogsRead(vs[..n], logs[..n]);
      LogRead(vs[n], logs[n]);
      assert vs == vs[..n] + [vs[n]] && logs == logs[..n] + [logs[n]];
      assert BlockLogValues(logs) == BlockLogValues(logs[..n]) + [BlockLogValue(logs[n])];
    }
  }

  lemma FieldsRead(kind: byte, value: V.Value, r: BlockReceipt)
    ensures DecodeFields(kind, value) == Some(r) <==>
            && r.kind == kind && (r.status == 0 || r.status == 1) && |r.bloom| == 256
            && (forall i :: 0 <= i < |r.logs| ==> LooseLog(r.logs[i]))
            && value.List? && |value.items| == 4 && QuantityOf(value.items[0]) == Some(r.status)
            && QuantityOf(value.items[1]) == Some(r.gas)
            && value.items[2] == V.Str(r.bloom) && value.items[3] == V.List(BlockLogValues(r.logs))
  {
    hide QuantityOf;
    hide BlockLogsOf;
    hide BlockLogValues;
    hide LooseLog;
    if value.List? && |value.items| == 4 && value.items[3].List? {
      LogsRead(value.items[3].items, r.logs);
    }
  }

  /** The decoder reads a receipt from exactly the strings that are written this way. */
  lemma DecodeMeaning(encoded: Bytes, r: BlockReceipt)
    ensures Decode(encoded) == Some(r) <==> exists status, gas :: Written(encoded, r, status, gas)
  {
    if Decode(encoded) == Some(r) {
      DecodedIsWritten(encoded, r);
    }
    if status, gas :| Written(encoded, r, status, gas) {
      WrittenIsDecoded(encoded, r, status, gas);
    }
  }

  /** A decoded receipt can be encoded again unless the data of some log is a list. */
  lemma Reencodable(encoded: Bytes, r: BlockReceipt)
    requires Decode(encoded) == Some(r)
    ensures Encode(r).Some? <==> forall i :: 0 <= i < |r.logs| ==> r.logs[i].data.Str?
  {
    DecodedIsWritten(encoded, r);
    hide V.Encode;
    hide Decode;
    assert forall i :: 0 <= i < |r.logs| ==> LooseLog(r.logs[i]);
  }

  lemma DecodedIsWritten(encoded: Bytes, r: BlockReceipt)
    requires Decode(encoded) == Some(r)
    ensures exists status, gas :: Written(encoded, r, status, gas)
  {
    hide V.Decode;
    hide V.Encode;
    hide DecodeFields;
    hide BlockLogValues;
    hide LooseLog;
    var typed := encoded[0] <= MAX_RECEIPT_TYPE;
    var body := if typed then encoded[1..] else encoded;
    var value := V.Decode(body).value;
    V.DecodeCanonical(body, value);
    FieldsRead(if typed then encoded[0] else 0, value, r);
    var items := value.items;
    assert items == [V.Str(items[0].bytes), V.Str(items[1].bytes), V.Str(r.bloom), items[3]];
    assert encoded == [encoded[0]] + encoded[1..];
    assert Written(encoded, r, items[0].bytes, items[1].bytes);
  }

  lemma WrittenIsDecoded(encoded: Bytes, r: BlockReceipt, status: Bytes, gas: Bytes)
    requires Written(encoded, r, status, gas)
    ensures Decode(encoded) == Some(r)
  {
    var value := V.List([V.Str(status), V.Str(gas), V.Str(r.bloom), V.List(BlockLogValues(r.logs))]);
    var body := V.Encode(value);
    ListStart(value.items);
    V.DecodeCanonical(body, value);
    FieldsRead(r.kind, value, r);
    hide V.Decode;
    hide V.Encode;
    hide DecodeFields;
    hide BlockLogValues;
    hide LooseLog;
    assert ([r.kind] + body)[1..] == body;
  }

  // ----- agreement with the strict decoder -----

  /** The envelope rules checked before a frame is captured. */
  predicate GuestCompatible(r: BlockReceipt) {
    (r.kind == 0 || r.kind == 1 || r.kind == 2 || r.kind == 0x6a) && (r.status == 0 || r.status == 1)
    && r.gas < U64_LIMIT
  }

  function GuestLog(log: BlockLog): Log
    requires EncodableLog(log)
  {
    Log(log.address, log.topics, log.data.bytes)
  }

  function GuestLogs(logs: seq<BlockLog>): (gs: seq<Log>)
    requires forall i :: 0 <= i < |logs| ==> EncodableLog(logs[i])
    ensures |gs| == |logs|
  {
    seq(|logs|, i requires 0 <= i < |logs| => GuestLog(logs[i]))
  }

  /** The same receipt as the strict decoder reports it. */
  function GuestReceipt(r: BlockReceipt): Receipt
    requires EncodableReceipt(r) && GuestCompatible(r)
  {
    Receipt(if r.kind == 0 then None else Some(r.kind), r.status == 1, r.gas, r.bloom, GuestLogs(r.logs))
  }

  predicate FewTopics(r: BlockReceipt) {
    forall i :: 0 <= i < |r.logs| ==> |r.logs[i].topics| <= 4
  }

  lemma SameValue(r: BlockReceipt)
    requires EncodableReceipt(r) && GuestCompatible(r)
    ensures ReceiptValue(GuestReceipt(r)) == BlockReceiptValue(r)
    ensures Encode(r) == Some(EncodeReceipt(GuestReceipt(r)))
  {
    SmallStatus(r.status);
    assert BlockLogValues(r.logs) == LogValues(GuestLogs(r.logs));
    hide V.Encode;
    hide BigEndian.Minimal;
    assert [] + V.Encode(BlockReceiptValue(r)) == V.Encode(BlockReceiptValue(r));
  }

  /** A captured receipt is read by the strict decoder as exactly itself; more than four topics in
      some log are the one thing the capture check lets through and the decoder refuses. */
  lemma CodecsAgree(r: BlockReceipt)
    requires EncodableReceipt(r) && GuestCompatible(r)
    requires |V.Encode(BlockReceiptValue(r))| < U64_LIMIT
    ensures Encode(r).Some?
    ensures DecodeReceipt(Encode(r).value) == if FewTopics(r) then Some(GuestReceipt(r)) else None
  {
    hide V.Encode;
    hide BlockReceiptValue;
    hide DecodeReceipt;
    SameValue(r);
    var encoded := Encode(r).value;
    ReceiptCanonical(encoded, GuestReceipt(r));
    if DecodeReceipt(encoded).Some? {
      var other := DecodeReceipt(encoded).value;
      ReceiptCanonical(encoded, other);
      EncodingUnique(GuestReceipt(r), other);
      SameTopicCounts(GuestReceipt(r), other);
      forall i | 0 <= i < |r.logs| ensures |r.logs[i].topics| <= 4 {
        assert |GuestReceipt(r).logs[i].topics| == |other.logs[i].topics|;
      }
    }
  }

  /** The capture check refuses nothing the strict decoder would read: of the encodable receipts it reads
      exactly the compatible ones with at most four topics in each log. */
  lemma StrictlyRead(r: BlockReceipt)
    requires EncodableReceipt(r) && |V.Encode(BlockReceiptValue(r))| < U64_LIMIT
    ensures Encode(r).Some?
    ensures DecodeReceipt(Encode(r).value).Some? <==> GuestCompatible(r) && FewTopics(r)
  {
    hide DecodeReceipt;
    hide FewTopics;
    hide GuestCompatible;
    if GuestCompatible(r) {
      CodecsAgree(r);
    } else if DecodeReceipt(Encode(r).value).Some? {
      ReadIsCompatible(r, DecodeReceipt(Encode(r).value).value);
    }
  }

  lemma ReadIsCompatible(r: BlockReceipt, g: Receipt)
    requires EncodableReceipt(r) && |V.Encode(BlockReceiptValue(r))| < U64_LIMIT
    requires DecodeReceipt(Encode(r).value) == Some(g)
    ensures GuestCompatible(r)
  {
    hide DecodeReceipt;
    hide V.Encode;
    hide EncodableLog;
    hide ValidLog;
    hide BigEndian.Minimal;
    var encoded, x, y := Encode(r).value, V.Encode(BlockReceiptValue(r)), V.Encode(ReceiptValue(g));
    ReceiptCanonical(encoded, g);
    ListStart(BlockReceiptValue(r).items);
    ListStart(ReceiptValue(g).items);
    assert encoded[0] == if r.kind == 0 then x[0] else r.kind;
    assert encoded[0] == if g.envelope.Some? then g.envelope.value else y[0];
    assert (r.kind == 0) == g.envelope.None?;
    SamePrefix(encoded, g.envelope, x, y);
    SameGas(r, g);
  }

  lemma SameGas(r: BlockReceipt, g: Receipt)
    requires EncodableReceipt(r) && |V.Encode(BlockReceiptValue(r))| < U64_LIMIT
    requires V.Encode(BlockReceiptValue(r)) == V.Encode(ReceiptValue(g))
    ensures r.gas == g.gas
  {
    V.DecodeEncode(BlockReceiptValue(r));
    V.DecodeEncode(ReceiptValue(g));
    hide V.Encode;
    hide V.Decode;
    hide BigEndian.Minimal;
    hide BigEndian.Value;
    assert BlockReceiptValue(r).items[1] == ReceiptValue(g).items[1];
    BigEndian.ValueOfMinimal(r.gas);
    BigEndian.ValueOfMinimal(g.gas);
  }

  /** A successful receipt with one log of five topics. */
  function FiveTopicReceipt(): BlockReceipt {
    BlockReceipt(0, 1, 0, seq(256, _ => 0),
                 [BlockLog(seq(20, _ => 0), seq(5, _ => seq(32, _ => 0)), V.Str([]))])
  }

  /** Room for `n` encodings of at most `size` bytes. */
  function Room(n: nat, size: nat): nat {
    if n == 0 then 0 else size + Room(n - 1, size)
  }

  lemma RoomForFive(n: nat, size: nat)
    requires n <= 5
    ensures Room(n, size) <= 5 * size
  {
    assert Room(1, size) == size;
    assert Room(2, size) == 2 * size;
    assert Room(3, size) == 3 * size;
    assert Room(4, size) == 4 * size;
    assert Room(5, size) == 5 * size;
  }

  lemma {:induction false} ShortValues(vs: seq<V.Value>, size: nat)
    requires forall i :: 0 <= i < |vs| ==> |V.Encode(vs[i])| <= size
    ensures |V.EncodeAll(vs)| <= Room(|vs|, size)
  {
    hide V.Encode;
    if vs != [] {
      ShortValues(vs[1..], size);
    }
  }

  lemma ShortString(bytes: Bytes)
    requires |bytes| < U64_LIMIT
    ensures |V.Encode(V.Str(bytes))| <= |bytes| + 9
  {
    EncodedSize(false, bytes);
  }

  lemma ShortList(vs: seq<V.Value>, size: nat)
    requires |vs| <= 5 && size < 0x1_0000 && forall i :: 0 <= i < |vs| ==> |V.Encode(vs[i])| <= size
    ensures |V.Encode(V.List(vs))| <= 5 * size + 9
  {
    ShortValues(vs, size);
    RoomForFive(|vs|, size);
    hide Room;
    EncodedSize(true, V.EncodeAll(vs));
    hide V.EncodeAll;
  }

  lemma FiveTopicsShort()
    ensures |V.Encode(BlockReceiptValue(FiveTopicReceipt()))| < U64_LIMIT
  {
    hide V.Encode;
    hide V.EncodeAll;
    var r := FiveTopicReceipt();
    var log := BlockLogValue(r.logs[0]);
    var topics := log.items[1].items;
    forall i | 0 <= i < |topics| ensures |V.Encode(topics[i])| <= 41 {
      ShortString(r.logs[0].topics[i]);
    }
    ShortList(topics, 41);
    ShortString(r.logs[0].address);
    ShortString([]);
    ShortList(log.items, 300);
    ShortList([log], 2000);
    SmallStatus(1);
    ShortString([1]);
    ShortString(r.bloom);
    var fields := BlockReceiptValue(r).items;
    assert fields[3].items == [log];
    assert fields[1] == V.Str([]);
    ShortList(fields, 11000);
  }

  /** This receipt passes every check of the capture, and the strict decoder refuses its encoding. */
  lemma FiveTopicsRefused()
    ensures var r := FiveTopicReceipt();
            && EncodableReceipt(r) && GuestCompatible(r) && Encode(r).Some?
            && DecodeReceipt(Encode(r).value).None?
  {
    FiveTopicsShort();
    hide V.Encode;
    hide DecodeReceipt;
    var r := FiveTopicReceipt();
    assert |r.logs[0].topics| == 5;
    CodecsAgree(r);
  }

  /** A receipt without logs whose cumulative gas is the first 257-bit number. */
  function BigGasReceipt(): BlockReceipt {
    BlockReceipt(0, 1, BigEndian.Pow256(32), seq(256, _ => 0), [])
  }

  lemma BigGasShort()
    ensures |V.Encode(BlockReceiptValue(BigGasReceipt()))| < U64_LIMIT
  {
    hide V.Encode;
    hide V.EncodeAll;
    hide BigEndian.Pow256;
    hide BigEndian.Minimal;
    var r := BigGasReceipt();
    BigEndian.PowStep(32);
    BigEndian.MinimalWidth(r.gas, 33);
    SmallStatus(1);
    ShortString([1]);
    ShortString(BigEndian.Minimal(r.gas));
    ShortString(r.bloom);
    ShortList([], 0);
    var fields := BlockReceiptValue(r).items;
    assert fields[3].items == [];
    ShortList(fields, 300);
  }

  /** This receipt is encoded, and its encoding is not decoded again. */
  lemma BigGasRefused()
    ensures var r := BigGasReceipt();
            EncodableReceipt(r) && Encode(r).Some? && Decode(Encode(r).value).None?
  {
    BigGasShort();
    hide V.Encode;
    hide Decode;
    hide BigEndian.Pow256;
    DecodeEncode(BigGasReceipt());
  }

  lemma SameTopicCounts(a: Receipt, b: Receipt)
    requires ReceiptValue(a) == ReceiptValue(b)
    ensures |a.logs| == |b.logs|
    ensures forall i :: 0 <= i < |a.logs| ==> |a.logs[i].topics| == |b.logs[i].topics|
  {
    assert LogValues(a.logs) == LogValues(b.logs);
    forall i | 0 <= i < |a.logs| ensures |a.logs[i].topics| == |b.logs[i].topics| {
      assert LogValue(a.logs[i]) == LogValues(a.logs)[i] == LogValue(b.logs[i]);
      assert StrValues(a.logs[i].topics) == StrValues(b.logs[i].topics);
    }
  }

  /** Receipts with one encoding are the same. */
  lemma EncodingUnique(a: Receipt, b: Receipt)
    requires EncodeReceipt(a) == EncodeReceipt(b) && ValidReceipt(b)
    requires a.envelope.Some? ==> SupportedEnvelope(a.envelope.value)
    requires |V.Encode(ReceiptValue(a))| < U64_LIMIT
    ensures a.envelope == b.envelope && ReceiptValue(a) == ReceiptValue(b)
  {
    var x, y := V.Encode(ReceiptValue(a)), V.Encode(ReceiptValue(b));
    ListStart(ReceiptValue(a).items);
    ListStart(ReceiptValue(b).items);
    SamePrefix(EncodeReceipt(a), a.envelope, x, y);
    V.DecodeEncode(ReceiptValue(a));
    V.DecodeEncode(ReceiptValue(b));
    hide V.Encode;
    hide V.Decode;
    hide ReceiptValue;
    assert EncodeReceipt(a)[0] == if a.envelope.Some? then a.envelope.value else x[0];
    assert EncodeReceipt(b)[0] == if b.envelope.Some? then b.envelope.value else y[0];
  }

  /** Captured receipts are never short: the bloom alone has 256 bytes. */
  lemma EncodedLength(r: BlockReceipt)
    requires EncodableReceipt(r)
    ensures Encode(r).Some? && |Encode(r).value| >= 256
  {
    var items := BlockReceiptValue(r).items;
    V.EncodeAllBound(items, 2);
    hide V.EncodeAll;
    assert |V.Encode(items[2])| >= 256;
    assert |EncodeItem(true, V.EncodeAll(items))| >= |V.EncodeAll(items)|;
  }
}
