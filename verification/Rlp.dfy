/** Canonical RLP: the writer's format, the strict reader and their agreement
    (Appendix B of the Ethereum Yellow Paper). */
module Rlp {
  import opened Prelude
  import BigEndian

  datatype RlpError =
    | EmptyItem | LengthPrefix | NoncanonicalLong | Truncated | NoncanonicalByte
    | TrailingBytes | ListRequired | BytesRequired

  /** Where the content of the first item of an input lies. */
  datatype Span = Span(off: nat, len: nat, list: bool)

  /** One item: its complete encoding, its content and whether it is a list. */
  datatype Item = Item(raw: Bytes, data: Bytes, list: bool) {
    ghost predicate Valid() {
      raw == EncodeItem(list, data) && Fits(list, data)
    }
  }

  // ----- the format -----

  /** The length header. A length of 2^64 or more has no RLP form (see `Fits`). */
  function Header(list: bool, n: nat): Bytes {
    var base := if list then 0xc0 else 0x80;
    if n < 56 then [base + n]
    else
      var digits := BigEndian.Minimal(n);
      [if |digits| <= 8 then base + 55 + |digits| else 0xff] + digits
  }

  function EncodeItem(list: bool, payload: Bytes): Bytes {
    if !list && |payload| == 1 && payload[0] < 0x80 then payload
    else Header(list, |payload|) + payload
  }

  /** The items a 64-bit reader can address. */
  predicate Fits(list: bool, payload: Bytes) {
    |EncodeItem(list, payload)| < U64_LIMIT
  }

  lemma HeaderSize(list: bool, n: nat)
    requires n < U64_LIMIT
    ensures 1 <= |Header(list, n)| <= 9
  {
    BigEndian.PowersOf256();
    BigEndian.MinimalWidth(n, 8);
  }

  lemma EncodedSize(list: bool, payload: Bytes)
    requires |payload| < U64_LIMIT
    ensures |EncodeItem(list, payload)| <= |payload| + 9
    ensures |payload| <= |EncodeItem(list, payload)|
    ensures EncodeItem(list, payload) != []
  {
    HeaderSize(list, |payload|);
  }

  // ----- the strict reader -----

  /** The checks after the length is known. */
  function Bounded(input: Bytes, off: nat, len: nat, list: bool): Result<Span, RlpError>
    requires input != []
  {
    if !(off + len < U64_LIMIT && off + len <= |input|) then Err(Truncated)
    else if input[0] == 0x81 && |input| > 1 && input[1] < 0x80 then Err(NoncanonicalByte)
    else Ok(Span(off, len, list))
  }

  function Prefix(input: Bytes): (r: Result<Span, RlpError>)
    ensures r.Ok? ==> 0 < r.value.off + r.value.len <= |input|
    ensures r.Ok? && r.value.list ==> r.value.off > 0
  {
    if input == [] then Err(EmptyItem)
    else
      var p := input[0];
      if p < 0x80 then Ok(Span(0, 1, false))
      else if p <= 0xb7 then Bounded(input, 1, p - 0x80, false)
      else if 0xc0 <= p <= 0xf7 then Bounded(input, 1, p - 0xc0, true)
      else
        var list := p >= 0xf8;
        var n := p - if list then 0xf7 else 0xb7;
        if !(|input| > n && input[1] != 0) then Err(LengthPrefix)
        else
          var len := BigEndian.Value(input[1..n + 1]);
          if len <= 55 then Err(NoncanonicalLong)
          else Bounded(input, 1 + n, len, list)
  }

  /** The reader with its length loop. The checked multiply and add of the loop cannot fail
      because a length has at most eight bytes. */
  method ReadPrefix(input: Bytes) returns (r: Result<Span, RlpError>)
    ensures r == Prefix(input)
  {
    if |input| == 0 {
      return Err(EmptyItem);
    }
    var p := input[0];
    if p < 0x80 {
      return Ok(Span(0, 1, false));
    }
    var off, len, list := 1, 0, p >= 0xc0;
    if p <= 0xb7 {
      len := p - 0x80;
    } else if 0xc0 <= p <= 0xf7 {
      len := p - 0xc0;
    } else {
      list := p >= 0xf8;
      var n := p - if list then 0xf7 else 0xb7;
      if !(|input| > n && input[1] != 0) {
        return Err(LengthPrefix);
      }
      var digits := input[1..n + 1];
      for i := 0 to n
        invariant len == BigEndian.Value(digits[..i])
      {
        BigEndian.ValueStep(digits, i);
        LengthNeverOverflows(digits[..i + 1]);
        assert 256 * len + digits[i] < U64_LIMIT;
        len := 256 * len + digits[i];
      }
      assert digits[..n] == digits;
      if len <= 55 {
        return Err(NoncanonicalLong);
      }
      off := 1 + n;
    }
    r := Bounded(input, off, len, list);
  }

  lemma LengthNeverOverflows(digits: Bytes)
    requires |digits| <= 8
    ensures BigEndian.Value(digits) < U64_LIMIT
  {
    BigEndian.PowersOf256();
    BigEndian.ValueBound(digits);
    BigEndian.PowMonotone(|digits|, 8);
  }

  /** Whatever the reader accepts is the one encoding of the content it reports. */
  lemma PrefixSound(input: Bytes)
    requires Prefix(input).Ok?
    ensures var s := Prefix(input).value;
            var payload := input[s.off..s.off + s.len];
            input[..s.off + s.len] == EncodeItem(s.list, payload) && Fits(s.list, payload)
  {
    var s := Prefix(input).value;
    var payload := input[s.off..s.off + s.len];
    assert input[..s.off + s.len] == input[..s.off] + payload;
    if s.off == 0 {
      assert input[..s.len] == payload == [input[0]];
    } else {
      HeaderSound(input);
    }
  }

  lemma HeaderSound(input: Bytes)
    requires Prefix(input).Ok? && Prefix(input).value.off > 0
    ensures var s := Prefix(input).value;
            && input[..s.off] == Header(s.list, s.len)
            && s.off + s.len < U64_LIMIT
            && (!s.list && s.len == 1 ==> input[s.off] >= 0x80)
  {
    var s := Prefix(input).value;
    var p := input[0];
    assert p >= 0x80;
    if s.off == 1 {
      assert input[..1] == [p];
    } else {
      var digits := input[1..s.off];
      BigEndian.MinimalOfValue(digits);
      assert input[..s.off] == [p] + digits;
    }
  }

  /** The reader accepts every encoding that fits, whatever follows it. */
  lemma PrefixComplete(list: bool, payload: Bytes, rest: Bytes)
    requires Fits(list, payload)
    ensures var raw := EncodeItem(list, payload);
            && Prefix(raw + rest) == Ok(Span(|raw| - |payload|, |payload|, list))
            && |payload| <= |raw|
            && (raw + rest)[|raw| - |payload|..|raw|] == payload
  {
    var raw := EncodeItem(list, payload);
    var head := raw[..|raw| - |payload|];
    assert raw == head + payload;
    assert (raw + rest)[|head|..|raw|] == payload;
    if raw != payload {
      assert head == Header(list, |payload|);
      assert raw + rest == head + (payload + rest);
      HeaderComplete(list, |payload|, payload + rest);
    }
  }

  lemma HeaderComplete(list: bool, n: nat, rest: Bytes)
    requires n <= |rest| && |Header(list, n)| + n < U64_LIMIT
    requires !list && n == 1 ==> rest[0] >= 0x80
    ensures Prefix(Header(list, n) + rest) == Ok(Span(|Header(list, n)|, n, list))
  {
    var head := Header(list, n);
    var input := head + rest;
    assert input[0] == head[0];
    if n >= 56 {
      var digits := BigEndian.Minimal(n);
      BigEndian.PowersOf256();
      BigEndian.MinimalWidth(n, 8);
      BigEndian.MinimalWidth(n, 0);
      BigEndian.ValueOfMinimal(n);
      assert input[1..|digits| + 1] == digits;
      assert input[1] == digits[0];
    } else if n == 1 {
      assert input[1] == rest[0];
    }
  }

  // ----- whole items and lists -----

  function ReadItem(input: Bytes): Result<Item, RlpError> {
    var s :- Prefix(input);
    if s.off + s.len != |input| then Err(TrailingBytes)
    else Ok(Item(input, input[s.off..], s.list))
  }

  function SplitItems(remaining: Bytes): Result<seq<Item>, RlpError>
    decreases |remaining|
  {
    if remaining == [] then Ok([])
    else
      var s :- Prefix(remaining);
      var raw := remaining[..s.off + s.len];
      var rest :- SplitItems(remaining[s.off + s.len..]);
      Ok([Item(raw, raw[s.off..], s.list)] + rest)
  }

  function ListItems(input: Bytes): Result<seq<Item>, RlpError> {
    var outer :- ReadItem(input);
    if !outer.list then Err(ListRequired) else SplitItems(outer.data)
  }

  function Join(items: seq<Item>): Bytes {
    if items == [] then [] else items[0].raw + Join(items[1..])
  }

  ghost predicate AllValid(items: seq<Item>) {
    forall i :: 0 <= i < |items| ==> items[i].Valid()
  }

  lemma ReadItemSound(input: Bytes)
    requires ReadItem(input).Ok?
    ensures ReadItem(input).value.Valid() && ReadItem(input).value.raw == input
  {
    PrefixSound(input);
    var s := Prefix(input).value;
    assert input[..s.off + s.len] == input;
    assert input[s.off..s.off + s.len] == input[s.off..];
  }

  lemma ReadItemComplete(item: Item)
    requires item.Valid()
    ensures ReadItem(item.raw) == Ok(item)
  {
    PrefixComplete(item.list, item.data, []);
    assert item.raw + [] == item.raw;
  }

  /** Reading one item off the front. */
  lemma FirstItem(payload: Bytes)
    requires payload != [] && Prefix(payload).Ok?
    ensures var s := Prefix(payload).value;
            var raw := payload[..s.off + s.len];
            Item(raw, raw[s.off..], s.list).Valid() && payload == raw + payload[s.off + s.len..]
  {
    var s := Prefix(payload).value;
    PrefixSound(payload);
    assert payload[..s.off + s.len][s.off..] == payload[s.off..s.off + s.len];
  }

  /** The list payloads the reader accepts are exactly the concatenations of valid items,
      and the items are determined by the payload. */
  lemma {:induction false} SplitSound(payload: Bytes)
    requires SplitItems(payload).Ok?
    ensures AllValid(SplitItems(payload).value)
    ensures Join(SplitItems(payload).value) == payload
    decreases |payload|
  {
    if payload != [] {
      FirstItem(payload);
      var s := Prefix(payload).value;
      var rest := payload[s.off + s.len..];
      SplitSound(rest);
      var items := SplitItems(payload).value;
      assert items[1..] == SplitItems(rest).value;
    }
  }

  lemma {:induction false} SplitComplete(items: seq<Item>)
    requires AllValid(items)
    ensures SplitItems(Join(items)) == Ok(items)
    decreases |items|
  {
    if items != [] {
      SplitComplete(items[1..]);
      SplitCons(items[0], Join(items[1..]));
      assert items == [items[0]] + items[1..];
    }
  }

  lemma SplitCons(first: Item, rest: Bytes)
    requires first.Valid()
    ensures SplitItems(first.raw + rest) == Prepend([first], SplitItems(rest))
  {
    PrefixComplete(first.list, first.data, rest);
    EncodedSize(first.list, first.data);
    var all := first.raw + rest;
    var s := Prefix(all).value;
    assert s.off + s.len == |first.raw|;
    assert all[..|first.raw|] == first.raw && all[|first.raw|..] == rest;
    assert first.raw[s.off..] == all[s.off..|first.raw|];
  }

  /** A string is read as a list of given items exactly when it is the encoding of their
      concatenation: one encoding per list, one list per encoding. */
  lemma ListCanonical(input: Bytes, items: seq<Item>)
    ensures ListItems(input) == Ok(items) <==>
            AllValid(items) && input == EncodeItem(true, Join(items)) && Fits(true, Join(items))
  {
    if ListItems(input) == Ok(items) {
      ReadItemSound(input);
      SplitSound(ReadItem(input).value.data);
    }
    if AllValid(items) && input == EncodeItem(true, Join(items)) && Fits(true, Join(items)) {
      ReadItemComplete(Item(input, Join(items), true));
      SplitComplete(items);
    }
  }

  /** Every item of a list is strictly shorter than the list. */
  lemma ItemsShrink(input: Bytes)
    requires ListItems(input).Ok?
    ensures forall i :: 0 <= i < |ListItems(input).value| ==> |ListItems(input).value[i].raw| < |input|
  {
    PayloadItemsShrink(ReadItem(input).value.data);
  }

  lemma {:induction false} PayloadItemsShrink(payload: Bytes)
    requires SplitItems(payload).Ok?
    ensures forall i :: 0 <= i < |SplitItems(payload).value| ==>
              |SplitItems(payload).value[i].raw| <= |payload|
    decreases |payload|
  {
    if payload != [] {
      var s := Prefix(payload).value;
      PayloadItemsShrink(payload[s.off + s.len..]);
    }
  }

  method ReadList(input: Bytes) returns (r: Result<seq<Item>, RlpError>)
    ensures r == ListItems(input)
  {
    var whole := ReadPrefix(input);
    if whole.Err? {
      return Err(whole.error);
    }
    var o := whole.value;
    if o.off + o.len != |input| {
      return Err(TrailingBytes);
    }
    if !o.list {
      return Err(ListRequired);
    }
    var remaining := input[o.off..];
    var out: seq<Item> := [];
    PrependNothing(SplitItems(remaining));
    while remaining != []
      invariant SplitItems(input[o.off..]) == Prepend(out, SplitItems(remaining))
      decreases |remaining|
    {
      var next := ReadPrefix(remaining);
      if next.Err? {
        return Err(next.error);
      }
      var s := next.value;
      var raw := remaining[..s.off + s.len];
      var item := Item(raw, raw[s.off..], s.list);
      PrependStep(out, item, SplitItems(remaining[s.off + s.len..]));
      out := out + [item];
      remaining := remaining[s.off + s.len..];
    }
    assert out + [] == out;
    r := Ok(out);
  }

  /** Items already read, followed by the outcome of reading the remainder. */
  function Prepend(read: seq<Item>, rest: Result<seq<Item>, RlpError>): Result<seq<Item>, RlpError> {
    match rest
    case Ok(items) => Ok(read + items)
    case Err(e) => Err(e)
  }

  lemma PrependNothing(rest: Result<seq<Item>, RlpError>)
    ensures Prepend([], rest) == rest
  {
    if rest.Ok? {
      assert [] + rest.value == rest.value;
    }
  }

  lemma PrependStep(read: seq<Item>, item: Item, rest: Result<seq<Item>, RlpError>)
    ensures Prepend(read, Prepend([item], rest)) == Prepend(read + [item], rest)
  {
    if rest.Ok? {
      assert read + ([item] + rest.value) == read + [item] + rest.value;
    }
  }

  /** The lazy iterator over a list. */
  class Items {
    var remaining: Bytes

    constructor (payload: Bytes)
      ensures remaining == payload
    {
      remaining := payload;
    }

    /** The next item, checked; after an error the iterator is exhausted. */
    method Next() returns (r: Option<Result<Item, RlpError>>)
      modifies this
      ensures old(remaining) == [] ==> r == None && remaining == []
      ensures old(remaining) != [] ==> r.Some? && (r.value.Err? ==> remaining == [])
      ensures r.Some? && r.value.Err? ==> SplitItems(old(remaining)) == Err(r.value.error)
      ensures r.Some? && r.value.Ok? ==>
                |remaining| < |old(remaining)| &&
                SplitItems(old(remaining)) == Prepend([r.value.value], SplitItems(remaining))
    {
      if remaining == [] {
        return None;
      }
      var result := ReadPrefix(remaining);
      if result.Err? {
        remaining := [];
        return Some(Err(result.error));
      }
      var s := result.value;
      var raw := remaining[..s.off + s.len];
      remaining := remaining[s.off + s.len..];
      r := Some(Ok(Item(raw, raw[s.off..], s.list)));
    }
  }

  /** Opening the iterator checks the outer list only. */
  method OpenItems(encoded: Bytes) returns (r: Result<Items, RlpError>)
    ensures r.Ok? ==> fresh(r.value) && ListItems(encoded) == SplitItems(r.value.remaining)
    ensures r.Err? ==> ListItems(encoded) == Err(r.error)
  {
    var whole := ReadPrefix(encoded);
    if whole.Err? {
      return Err(whole.error);
    }
    var s := whole.value;
    if s.off + s.len != |encoded| {
      return Err(TrailingBytes);
    }
    if !s.list {
      return Err(ListRequired);
    }
    var items := new Items(encoded[s.off..]);
    r := Ok(items);
  }

  /** Draining the lazy iterator gives what the eager reader gives, the first error included. */
  method DrainItems(encoded: Bytes) returns (r: Result<seq<Item>, RlpError>)
    ensures r == ListItems(encoded)
  {
    var source := OpenItems(encoded);
    if source.Err? {
      return Err(source.error);
    }
    var items := source.value;
    var out: seq<Item> := [];
    var more := true;
    PrependNothing(SplitItems(items.remaining));
    while more
      invariant ListItems(encoded) == Prepend(out, SplitItems(items.remaining))
      invariant !more ==> items.remaining == []
      decreases more, |items.remaining|
    {
      var next := items.Next();
      match next
      case None => more := false;
      case Some(Err(e)) => return Err(e);
      case Some(Ok(item)) =>
        PrependStep(out, item, SplitItems(items.remaining));
        out := out + [item];
    }
    assert out + [] == out;
    r := Ok(out);
  }
}
