/** Receipt trie keys: canonical RLP of a 64-bit transaction index, their decoding from a key path,
    and their order. */
module ReceiptKeys {
  import opened Prelude
  import opened HexPrefix
  import BigEndian
  import Rlp

  /** How many leading bytes of a word are zero. */
  function LeadingZeros(word: Bytes): nat {
    if word == [] || word[0] != 0 then 0 else 1 + LeadingZeros(word[1..])
  }

  /** Zero is the empty string 0x80, one byte below 0x80 is itself, anything else has a length. */
  function ReceiptKey(index: nat): (key: Bytes)
    requires index < U64_LIMIT
    ensures 1 <= |key| <= 9
  {
    if index == 0 then [0x80]
    else if index < 0x80 then [index]
    else
      var encoded := BigEndian.Fixed(index, 8);
      StripIsMinimal(index, 8);
      BigEndian.PowersOf256();
      BigEndian.MinimalWidth(index, 8);
      var value := encoded[LeadingZeros(encoded)..];
      [0x80 + |value|] + value
  }

  lemma {:induction false} StripIsMinimal(n: nat, width: nat)
    requires n < BigEndian.Pow256(width)
    ensures var f := BigEndian.Fixed(n, width);
            LeadingZeros(f) <= width && f[LeadingZeros(f)..] == BigEndian.Minimal(n)
    ensures n == 0 ==> LeadingZeros(BigEndian.Fixed(n, width)) == width
  {
    if width > 0 {
      StripIsMinimal(n / 256, width - 1);
      var front := BigEndian.Fixed(n / 256, width - 1);
      LeadingZerosAppend(front, n % 256);
    }
  }

  lemma {:induction false} LeadingZerosAppend(front: Bytes, last: byte)
    ensures LeadingZeros(front) <= |front|
    ensures LeadingZeros(front + [last]) ==
            if LeadingZeros(front) < |front| then LeadingZeros(front)
            else |front| + if last == 0 then 1 else 0
  {
    if front == [] {
      assert front + [last] == [last];
      assert LeadingZeros([last][1..]) == 0;
    } else {
      LeadingZerosAppend(front[1..], last);
      assert (front + [last])[1..] == front[1..] + [last];
    }
  }

  /** The walker's keys, the RLP writer's keys and the TypeScript builder's keys are the same. */
  lemma KeyIsRlp(index: nat)
    requires index < U64_LIMIT
    ensures ReceiptKey(index) == Rlp.EncodeItem(false, BigEndian.Minimal(index))
    ensures Rlp.Fits(false, BigEndian.Minimal(index)) && |BigEndian.Minimal(index)| <= 8
  {
    BigEndian.PowersOf256();
    BigEndian.MinimalWidth(index, 8);
    BigEndian.MinimalWidth(index, 1);
    BigEndian.MinimalWidth(index, 0);
    BigEndian.ValueOfMinimal(index);
    StripIsMinimal(index, 8);
    if 0 < index < 0x80 {
      assert BigEndian.Minimal(index) == [index];
    }
  }

  // ----- decoding a key path -----

  datatype IndexError = InvalidReceiptIndex | UnsupportedIndexWidth

  /** The index a path of nibbles encodes, if it is the canonical key of one. */
  function PathIndex(path: Nibbles): Result<nat, IndexError> {
    if |path| % 2 != 0 then Err(InvalidReceiptIndex)
    else RawIndex(Pack(path))
  }

  function RawIndex(raw: Bytes): Result<nat, IndexError> {
    match Rlp.ReadItem(raw)
    case Err(_) => Err(InvalidReceiptIndex)
    case Ok(item) =>
      if item.list then Err(InvalidReceiptIndex)
      else if |item.data| > 8 then Err(UnsupportedIndexWidth)
      else if item.data != [] && item.data[0] == 0 then Err(InvalidReceiptIndex)
      else
        var index := BigEndian.Value(item.data);
        Rlp.LengthNeverOverflows(item.data);
        if ReceiptKey(index) != raw then Err(InvalidReceiptIndex) else Ok(index)
  }

  /** The decoder's loops: packing the path into bytes, then accumulating the index. */
  method DecodePathIndex(path: Nibbles) returns (r: Result<nat, IndexError>)
    ensures r == PathIndex(path)
  {
    if |path| % 2 != 0 {
      return Err(InvalidReceiptIndex);
    }
    var raw: Bytes := [];
    for i := 0 to |path| / 2
      invariant raw + Pack(path[2 * i..]) == Pack(path)
    {
      assert path[2 * i..][2..] == path[2 * (i + 1)..];
      raw := raw + [Byte(path[2 * i], path[2 * i + 1])];
    }
    assert raw == Pack(path);
    var item := Rlp.ReadItem(raw);
    if item.Err? || item.value.list {
      return Err(InvalidReceiptIndex);
    }
    var value := item.value.data;
    if |value| > 8 {
      return Err(UnsupportedIndexWidth);
    }
    if value != [] && value[0] == 0 {
      return Err(InvalidReceiptIndex);
    }
    var index: nat := 0;
    for i := 0 to |value|
      invariant index == BigEndian.Value(value[..i])
    {
      BigEndian.ValueStep(value, i);
      index := 256 * index + value[i];
    }
    assert value[..|value|] == value;
    Rlp.LengthNeverOverflows(value);
    return if ReceiptKey(index) != raw then Err(InvalidReceiptIndex) else Ok(index);
  }

  lemma RawIndexOfKey(index: nat)
    requires index < U64_LIMIT
    ensures RawIndex(ReceiptKey(index)) == Ok(index)
  {
    KeyIsRlp(index);
    var digits := BigEndian.Minimal(index);
    Rlp.ReadItemComplete(Rlp.Item(ReceiptKey(index), digits, false));
    BigEndian.ValueOfMinimal(index);
  }

  lemma RawIndexSound(raw: Bytes)
    requires RawIndex(raw).Ok?
    ensures RawIndex(raw).value < U64_LIMIT && ReceiptKey(RawIndex(raw).value) == raw
  {
    Rlp.LengthNeverOverflows(Rlp.ReadItem(raw).value.data);
  }

  /** A path decodes to an index exactly when it is that index's key. */
  lemma PathIndexCanonical(path: Nibbles, index: nat)
    ensures PathIndex(path) == Ok(index) <==> index < U64_LIMIT && path == NibblesOf(ReceiptKey(index))
  {
    hide RawIndex;
    hide ReceiptKey;
    if PathIndex(path) == Ok(index) {
      NibblesOfPack(path);
      RawIndexSound(Pack(path));
    }
    if index < U64_LIMIT && path == NibblesOf(ReceiptKey(index)) {
      PackOfNibbles(ReceiptKey(index));
      RawIndexOfKey(index);
    }
  }

  lemma KeysInjective(i: nat, j: nat)
    requires i < U64_LIMIT && j < U64_LIMIT
    requires NibblesOf(ReceiptKey(i)) == NibblesOf(ReceiptKey(j))
    ensures i == j
  {
    PathIndexCanonical(NibblesOf(ReceiptKey(i)), i);
    PathIndexCanonical(NibblesOf(ReceiptKey(j)), j);
  }

  // ----- key order -----

  /** Where an index comes in key order: 1..127 first, then 0, then 128 and up. */
  function Rank(index: nat): nat {
    if index == 0 then 128 else if index < 128 then index else index + 1
  }

  lemma KeyOrder(i: nat, j: nat)
    requires i < U64_LIMIT && j < U64_LIMIT
    ensures LexLess(ReceiptKey(i), ReceiptKey(j)) <==> Rank(i) < Rank(j)
  {
    if i >= 128 && j >= 128 {
      LongKeyOrder(i, j);
    } else {
      KeyShape(i);
      KeyShape(j);
      if i == j {
        LexIrreflexive(ReceiptKey(i));
      }
    }
  }

  /** The first byte separates the three groups of keys. */
  lemma KeyShape(i: nat)
    requires i < U64_LIMIT
    ensures i < 128 ==> ReceiptKey(i) == [Rank(i)]
    ensures i >= 128 ==> ReceiptKey(i)[0] > 0x80
  {
    if i >= 128 {
      BigEndian.MinimalWidth(i, 0);
      BigEndian.PowersOf256();
      StripIsMinimal(i, 8);
    }
  }

  lemma LongKeyOrder(i: nat, j: nat)
    requires 128 <= i < U64_LIMIT && 128 <= j < U64_LIMIT
    ensures LexLess(ReceiptKey(i), ReceiptKey(j)) <==> i < j
  {
    var a, b := BigEndian.Minimal(i), BigEndian.Minimal(j);
    LongKey(i);
    LongKey(j);
    if |a| == |b| {
      BigEndian.ValueOfMinimal(i);
      BigEndian.ValueOfMinimal(j);
      BigEndian.NumericOrder(a, b);
    } else {
      BigEndian.MinimalWidth(i, if |a| < |b| then |a| else |b|);
      BigEndian.MinimalWidth(j, if |a| < |b| then |a| else |b|);
    }
  }

  lemma LongKey(i: nat)
    requires 128 <= i < U64_LIMIT
    ensures |BigEndian.Minimal(i)| <= 8
    ensures ReceiptKey(i)[0] == 0x80 + |BigEndian.Minimal(i)|
    ensures ReceiptKey(i)[1..] == BigEndian.Minimal(i)
  {
    BigEndian.PowersOf256();
    BigEndian.MinimalWidth(i, 8);
    StripIsMinimal(i, 8);
  }

  /** The index a walker visits in place `k` of the receipts 0..count-1. */
  function VisitAt(count: nat, k: nat): nat
    requires k < count
  {
    var low := if count <= 128 then count - 1 else 127;
    if k < low then k + 1 else if k == low then 0 else k
  }

  /** The position of an index in the visit order. */
  function PositionOf(count: nat, index: nat): nat
    requires index < count
  {
    var low := if count <= 128 then count - 1 else 127;
    if index == 0 then low else if index <= low then index - 1 else index
  }

  /** The visit order enumerates 0..count-1, each once, in increasing key order. */
  lemma VisitOrderIsSorted(count: nat)
    ensures forall i, j :: 0 <= i < j < count ==> Rank(VisitAt(count, i)) < Rank(VisitAt(count, j))
    ensures forall k :: 0 <= k < count ==> VisitAt(count, k) < count
    ensures forall i :: 0 <= i < count ==>
              PositionOf(count, i) < count && VisitAt(count, PositionOf(count, i)) == i
  {
  }
}
