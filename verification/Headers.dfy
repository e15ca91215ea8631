/** Nitro block headers: the reader's own item parser, the sixteen fields and their one encoding. */
module Headers {
  import opened Prelude
  import opened Rlp
  import opened Uint
  import opened AbiWords
  import opened Receipts
  import V = RlpTree
  import BigEndian

  datatype Header = Header(
    parentHash: Hash, ommersHash: Hash, beneficiary: Address, stateRoot: Hash, transactionsRoot: Hash,
    receiptsRoot: Hash, logsBloom: Bytes, difficulty: Word, number: u64, gasLimit: u64, gasUsed: u64,
    timestamp: u64, extraData: Bytes, mixHash: Hash, nonce: Bytes, baseFeePerGas: Word)

  predicate ValidHeader(h: Header) {
    |h.logsBloom| == 256 && |h.nonce| == 8 && h.gasUsed <= h.gasLimit
  }

  // ----- the item parser of the header reader -----

  /** Where the first item lies, as (offset, length, list flag, total length). It accepts exactly the
      inputs of the shared reader, with the same outcome. */
  method HeaderItem(input: Bytes) returns (r: Result<(nat, nat, bool, nat), CoreError>)
    ensures r.Ok? <==> Prefix(input).Ok?
    ensures r.Ok? ==> var s := Prefix(input).value; r.value == (s.off, s.len, s.list, s.off + s.len)
  {
    if input == [] {
      return Err(CoreError.Length);
    }
    var first := input[0];
    if first < 0x80 {
      return Ok((0, 1, false, 1));
    }
    var offset, length: nat, list := 1, 0, first >= 0xc0;
    if first <= 0xb7 {
      length := first - 0x80;
    } else if 0xc0 <= first <= 0xf7 {
      length := first - 0xc0;
    } else {
      list := first >= 0xf8;
      var width := first - if list then 0xf7 else 0xb7;
      if 1 + width > |input| {
        return Err(CoreError.Length);
      }
      var raw := input[1..1 + width];
      if raw[0] == 0 {
        return Err(NonCanonical);
      }
      for i := 0 to width
        invariant length == BigEndian.Value(raw[..i])
      {
        BigEndian.ValueStep(raw, i);
        LengthNeverOverflows(raw[..i + 1]);
        length := 256 * length + raw[i];
      }
      assert raw[..width] == raw;
      if length <= 55 {
        return Err(NonCanonical);
      }
      offset := 1 + width;
    }
    var end := offset + length;
    if end >= U64_LIMIT {
      return Err(Overflow);
    }
    if end > |input| {
      return Err(CoreError.Length);
    }
    if first == 0x81 && input[1] < 0x80 {
      return Err(NonCanonical);
    }
    r := Ok((offset, length, list, end));
  }

  // ----- the fields -----

  /** A number without leading zeros of at most `width` bytes. */
  function IntegerOf(bytes: Bytes, width: nat): Result<nat, CoreError> {
    if |bytes| > width then Err(CoreError.Length)
    else if bytes != [] && bytes[0] == 0 then Err(NonCanonical)
    else Ok(BigEndian.Value(bytes))
  }

  function WordInteger(bytes: Bytes): Result<Word, CoreError> {
    var n :- IntegerOf(bytes, 32);
    Ok(WordOf(n))
  }

  function U64Integer(bytes: Bytes): Result<u64, CoreError> {
    var n :- IntegerOf(bytes, 8);
    LengthNeverOverflows(bytes);
    Ok(n)
  }

  function FixedOf(bytes: Bytes, size: nat): (r: Result<Bytes, CoreError>)
    ensures r == Ok(bytes) <==> |bytes| == size
    ensures r.Ok? ==> r.value == bytes
  {
    if |bytes| == size then Ok(bytes) else Err(CoreError.Length)
  }

  lemma IntegerCanonical(bytes: Bytes, width: nat, n: nat)
    ensures IntegerOf(bytes, width) == Ok(n) <==> n < BigEndian.Pow256(width) && bytes == BigEndian.Minimal(n)
  {
    BigEndian.ValueOfMinimal(n);
    BigEndian.MinimalWidth(n, width);
    if bytes == [] || bytes[0] != 0 {
      BigEndian.MinimalOfValue(bytes);
    }
    hide BigEndian.Value;
    hide BigEndian.Minimal;
  }

  lemma WordIntegerCanonical(bytes: Bytes, w: Word)
    ensures WordInteger(bytes) == Ok(w) <==> bytes == BigEndian.Minimal(WordValue(w))
  {
    IntegerCanonical(bytes, 32, WordValue(w));
    WordOfValue(w);
    if IntegerOf(bytes, 32).Ok? {
      var n := IntegerOf(bytes, 32).value;
      IntegerCanonical(bytes, 32, n);
      ValueOfWord(n);
    }
    hide IntegerOf;
    hide WordOf;
    hide WordValue;
    hide BigEndian.Minimal;
  }

  lemma U64IntegerCanonical(bytes: Bytes, n: u64)
    ensures U64Integer(bytes) == Ok(n) <==> bytes == BigEndian.Minimal(n)
  {
    IntegerCanonical(bytes, 8, n);
    BigEndian.PowersOf256();
    hide IntegerOf;
    hide BigEndian.Minimal;
    hide BigEndian.Value;
  }

  /** The sixteen strings of a header, in order. */
  function HeaderStrings(h: Header): (strings: seq<Bytes>)
    ensures |strings| == 16
  {
    [h.parentHash, h.ommersHash, h.beneficiary, h.stateRoot, h.transactionsRoot, h.receiptsRoot, h.logsBloom,
     BigEndian.Minimal(WordValue(h.difficulty)), BigEndian.Minimal(h.number), BigEndian.Minimal(h.gasLimit),
     BigEndian.Minimal(h.gasUsed), BigEndian.Minimal(h.timestamp), h.extraData, h.mixHash, h.nonce,
     BigEndian.Minimal(WordValue(h.baseFeePerGas))]
  }

  function EncodeHeader(h: Header): Bytes {
    V.Encode(V.List(StrValues(HeaderStrings(h))))
  }

  /** The checks of the sixteen fields, the gas fields first. */
  function FieldsHeader(fields: seq<Bytes>): Result<Header, CoreError>
    requires |fields| == 16
  {
    var gasLimit :- U64Integer(fields[9]);
    var gasUsed :- U64Integer(fields[10]);
    if gasUsed > gasLimit then Err(Invalid)
    else
      var parentHash :- FixedOf(fields[0], 32);
      var ommersHash :- FixedOf(fields[1], 32);
      var beneficiary :- FixedOf(fields[2], 20);
      var stateRoot :- FixedOf(fields[3], 32);
      var transactionsRoot :- FixedOf(fields[4], 32);
      var receiptsRoot :- FixedOf(fields[5], 32);
      var logsBloom :- FixedOf(fields[6], 256);
      var difficulty :- WordInteger(fields[7]);
      var number :- U64Integer(fields[8]);
      var timestamp :- U64Integer(fields[11]);
      var mixHash :- FixedOf(fields[13], 32);
      var nonce :- FixedOf(fields[14], 8);
      var baseFeePerGas :- WordInteger(fields[15]);
      Ok(Header(parentHash, ommersHash, beneficiary, stateRoot, transactionsRoot, receiptsRoot, logsBloom,
                difficulty, number, gasLimit, gasUsed, timestamp, fields[12], mixHash, nonce, baseFeePerGas))
  }

  lemma FieldsHeaderCanonical(fields: seq<Bytes>, h: Header)
    requires |fields| == 16
    ensures FieldsHeader(fields) == Ok(h) <==> ValidHeader(h) && fields == HeaderStrings(h)
  {
    hide U64Integer;
    hide WordInteger;
    hide FixedOf;
    hide BigEndian.Minimal;
    hide WordValue;
    U64IntegerCanonical(fields[9], h.gasLimit);
    U64IntegerCanonical(fields[10], h.gasUsed);
    WordIntegerCanonical(fields[7], h.difficulty);
    U64IntegerCanonical(fields[8], h.number);
    U64IntegerCanonical(fields[11], h.timestamp);
    WordIntegerCanonical(fields[15], h.baseFeePerGas);
    var strings := HeaderStrings(h);
    assert fields == strings <==>
           fields[0] == strings[0] && fields[1] == strings[1] && fields[2] == strings[2] && fields[3] == strings[3]
           && fields[4] == strings[4] && fields[5] == strings[5] && fields[6] == strings[6]
           && fields[7] == strings[7] && fields[8] == strings[8] && fields[9] == strings[9]
           && fields[10] == strings[10] && fields[11] == strings[11] && fields[12] == strings[12]
           && fields[13] == strings[13] && fields[14] == strings[14] && fields[15] == strings[15];
  }

  // ----- the header -----

  /** The contents of `n` string items that make up the payload, if that is what it is. */
  function StringsOf(items: seq<Item>): (r: Option<seq<Bytes>>)
    ensures r.Some? ==> |r.value| == |items|
  {
    if items == [] then Some([])
    else if items[|items| - 1].list then None
    else
      var front :- StringsOf(items[..|items| - 1]);
      Some(front + [items[|items| - 1].data])
  }

  lemma {:induction false} StringsCanonical(items: seq<Item>, strings: seq<Bytes>)
    requires AllValid(items)
    ensures StringsOf(items) == Some(strings) <==> items == Tops(StrValues(strings))
  {
    hide V.TopItem;
    if |items| == |strings| && items != [] {
      var n := |items| - 1;
      StringsCanonical(items[..n], strings[..n]);
      StringItem(items[n], strings[n]);
      assert items == items[..n] + [items[n]] && strings == strings[..n] + [strings[n]];
      assert Tops(StrValues(strings)) == Tops(StrValues(strings[..n])) + [V.TopItem(V.Str(strings[n]))];
    }
  }

  function ParseHeader(encoded: Bytes): Option<Header> {
    var items :- Exactly(encoded, 16);
    var fields :- StringsOf(items);
    match FieldsHeader(fields)
    case Ok(h) => Some(h)
    case Err(_) => None
  }

  /** A parsed header re-encodes to its input, and every encoded valid header is parsed. */
  lemma HeaderCanonical(encoded: Bytes, h: Header)
    ensures ParseHeader(encoded) == Some(h) <==>
            ValidHeader(h) && encoded == EncodeHeader(h) && |encoded| < U64_LIMIT
  {
    hide V.Encode;
    hide ListItems;
    hide FieldsHeader;
    hide HeaderStrings;
    var strings := HeaderStrings(h);
    ListOfValues(encoded, StrValues(strings));
    if ListItems(encoded).Ok? {
      var items := ListItems(encoded).value;
      ListCanonical(encoded, items);
      StringsCanonical(items, strings);
      if StringsOf(items).Some? && |items| == 16 {
        FieldsHeaderCanonical(StringsOf(items).value, h);
        StringsCanonical(items, StringsOf(items).value);
      }
      if StringsOf(items) == Some(strings) {
        FieldsHeaderCanonical(strings, h);
      }
    }
  }

  // ----- the parser -----

  method ParseNitroHeader(encoded: Bytes) returns (r: Result<Header, CoreError>)
    ensures ParseHeader(encoded) == if r.Ok? then Some(r.value) else None
  {
    hide Prefix;
    hide SplitItems;
    hide FieldsHeader;
    var outer := HeaderItem(encoded);
    if outer.Err? {
      return Err(outer.error);
    }
    var (offset, length, list, total) := outer.value;
    if !list || total != |encoded| {
      return Err(NonCanonical);
    }
    assert encoded[offset..offset + length] == encoded[offset..];
    var fields := ReadFields(encoded[offset..offset + length]);
    if fields.Err? {
      return Err(fields.error);
    }
    r := FieldsHeader(fields.value);
  }

  /** Reads sixteen strings and the end of the payload. */
  method ReadFields(payload: Bytes) returns (r: Result<seq<Bytes>, CoreError>)
    ensures r.Ok? <==> SixteenStrings(payload).Some?
    ensures r.Ok? ==> |r.value| == 16 && SixteenStrings(payload) == Some(r.value)
  {
    hide Prefix;
    hide SplitItems;
    hide StringsOf;
    var remaining := payload;
    var fields := new Bytes[16](_ => []);
    ghost var read: seq<Item> := [];
    PrependNothing(SplitItems(payload));
    NoStrings();
    for i := 0 to 16
      invariant |read| == i && StringsOf(read) == Some(fields[..i])
      invariant SplitItems(payload) == Prepend(read, SplitItems(remaining))
    {
      var next := HeaderItem(remaining);
      StepItems(payload, read, remaining);
      if next.Err? {
        return Err(next.error);
      }
      var (start, len, isList, consumed) := next.value;
      ghost var raw := remaining[..consumed];
      ghost var item := Item(raw, raw[start..], isList);
      StringsPrefix(read, item, SplitItems(remaining[consumed..]));
      if isList {
        return Err(NonCanonical);
      }
      fields[i] := remaining[start..start + len];
      assert fields[..i + 1] == fields[..i] + [item.data];
      read := read + [item];
      remaining := remaining[consumed..];
    }
    FieldsEnd(payload, read, remaining);
    if remaining != [] {
      return Err(CoreError.Length);
    }
    r := Ok(fields[..16]);
  }

  /** The sixteen strings a payload consists of. */
  function SixteenStrings(payload: Bytes): Option<seq<Bytes>> {
    match SplitItems(payload)
    case Ok(items) => if |items| == 16 then StringsOf(items) else None
    case Err(_) => None
  }

  lemma NoStrings()
    ensures StringsOf([]) == Some([])
  {
  }

  /** One step of the field loop. */
  lemma StepItems(payload: Bytes, read: seq<Item>, remaining: Bytes)
    requires SplitItems(payload) == Prepend(read, SplitItems(remaining)) && |read| < 16
    ensures remaining == [] || Prefix(remaining).Err? ==> SixteenStrings(payload).None?
    ensures Prefix(remaining).Ok? ==>
              var s := Prefix(remaining).value;
              var raw := remaining[..s.off + s.len];
              var item := Item(raw, raw[s.off..], s.list);
              SplitItems(payload) == Prepend(read + [item], SplitItems(remaining[s.off + s.len..]))
  {
    hide StringsOf;
    hide Prefix;
    if remaining == [] {
      assert read + [] == read;
    } else if Prefix(remaining).Ok? {
      var s := Prefix(remaining).value;
      var raw := remaining[..s.off + s.len];
      PrependStep(read, Item(raw, raw[s.off..], s.list), SplitItems(remaining[s.off + s.len..]));
    }
  }

  lemma StringsPrefix(read: seq<Item>, item: Item, rest: Result<seq<Item>, RlpError>)
    requires StringsOf(read).Some?
    ensures !item.list ==> StringsOf(read + [item]) == Some(StringsOf(read).value + [item.data])
    ensures item.list && Prepend(read + [item], rest).Ok? ==> StringsOf(Prepend(read + [item], rest).value).None?
  {
    assert (read + [item])[..|read|] == read;
    if item.list && rest.Ok? {
      StringsFail(read + [item], rest.value);
    }
  }

  lemma {:induction false} StringsFail(bad: seq<Item>, rest: seq<Item>)
    requires StringsOf(bad).None?
    ensures StringsOf(bad + rest).None?
  {
    if rest == [] {
      assert bad + rest == bad;
    } else {
      StringsFail(bad, rest[..|rest| - 1]);
      assert (bad + rest)[..|bad + rest| - 1] == bad + rest[..|rest| - 1];
    }
  }

  lemma FieldsEnd(payload: Bytes, read: seq<Item>, remaining: Bytes)
    requires SplitItems(payload) == Prepend(read, SplitItems(remaining)) && |read| == 16
    ensures remaining == [] ==> SixteenStrings(payload) == StringsOf(read)
    ensures remaining != [] ==> SixteenStrings(payload).None?
  {
    hide StringsOf;
    if remaining == [] {
      assert read + [] == read;
    }
  }
}
