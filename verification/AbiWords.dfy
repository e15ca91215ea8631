/** Static Solidity ABI words: addresses, unsigned and two's-complement integers, with decoders that
    accept exactly one word per value. */
module AbiWords {
  import opened Prelude
  import opened Uint
  import BigEndian

  datatype CoreError = Length | NonCanonical | Invalid | Overflow | UnsupportedVenue(kind: byte)

  // ----- fill bytes -----

  function Fill(n: nat, b: byte): (bs: Bytes)
    ensures |bs| == n
  {
    seq(n, _ => b)
  }

  predicate AllEqual(bs: Bytes, b: byte) {
    forall i :: 0 <= i < |bs| ==> bs[i] == b
  }

  lemma AllEqualIsFill(bs: Bytes, b: byte)
    ensures AllEqual(bs, b) <==> bs == Fill(|bs|, b)
  {
  }

  lemma {:induction false} ZeroFill(n: nat, low: Bytes)
    ensures BigEndian.Value(Fill(n, 0) + low) == BigEndian.Value(low)
  {
    if n == 0 {
      assert Fill(0, 0) + low == low;
    } else {
      ZeroFill(n - 1, low);
      assert Fill(n, 0) + low == [0] + (Fill(n - 1, 0) + low);
      BigEndian.ValueFront(0, Fill(n - 1, 0) + low);
    }
  }

  lemma {:induction false} OnesFill(n: nat, low: Bytes)
    ensures BigEndian.Value(Fill(n, 255) + low) ==
            BigEndian.Value(low) + BigEndian.Pow256(n + |low|) - BigEndian.Pow256(|low|)
  {
    if n == 0 {
      assert Fill(0, 255) + low == low;
    } else {
      hide BigEndian.Value;
      OnesFill(n - 1, low);
      assert Fill(n, 255) + low == [255] + (Fill(n - 1, 255) + low);
      BigEndian.ValueFront(255, Fill(n - 1, 255) + low);
      BigEndian.PowStep(n - 1 + |low|);
    }
  }

  // ----- unsigned words -----

  /** A word holds a number of at most `width` bytes exactly when the bytes above are zero. */
  lemma UintWidth(w: Word, width: nat)
    requires width <= 32
    ensures AllEqual(w[..32 - width], 0) <==> WordValue(w) < BigEndian.Pow256(width)
  {
    var high, low := w[..32 - width], w[32 - width..];
    assert w == high + low;
    BigEndian.ValueBound(low);
    AllEqualIsFill(high, 0);
    if AllEqual(high, 0) {
      ZeroFill(32 - width, low);
    }
    if WordValue(w) < BigEndian.Pow256(width) {
      var narrow := BigEndian.Fixed(WordValue(w), width);
      BigEndian.ValueOfFixed(WordValue(w), width);
      ZeroFill(32 - width, narrow);
      SameValueSameWord(w, Fill(32 - width, 0) + narrow);
    }
  }

  lemma SameValueSameWord(a: Bytes, b: Bytes)
    requires |a| == |b| && BigEndian.Value(a) == BigEndian.Value(b)
    ensures a == b
  {
    BigEndian.FixedOfValue(a);
    BigEndian.FixedOfValue(b);
  }

  function UintWord(n: nat): Word {
    WordOf(n)
  }

  /** The low bytes of a word as a number, if the bytes above are zero. */
  function DecodeUint(w: Word, width: nat): Result<Word, CoreError> {
    if !(1 <= width <= 32) then Err(Invalid)
    else if !AllEqual(w[..32 - width], 0) then Err(NonCanonical)
    else Ok(w)
  }

  /** One word per number, and one number per accepted word. */
  lemma UintCanonical(w: Word, width: nat, n: nat)
    requires 1 <= width <= 32
    ensures DecodeUint(w, width).Ok? && WordValue(w) == n <==>
            n < BigEndian.Pow256(width) && w == UintWord(n)
  {
    UintWidth(w, width);
    WordOfValue(w);
    BigEndian.PowMonotone(width, 32);
    if n < BigEndian.Pow256(width) {
      ValueOfWord(n);
    }
  }

  // ----- addresses -----

  function AddressWord(a: Address): Word {
    Fill(12, 0) + a
  }

  function DecodeAddress(w: Word): Result<Address, CoreError> {
    if !AllEqual(w[..12], 0) then Err(NonCanonical) else Ok(w[12..])
  }

  lemma AddressCanonical(w: Word, a: Address)
    ensures DecodeAddress(w) == Ok(a) <==> w == AddressWord(a)
  {
    assert w == w[..12] + w[12..];
    AllEqualIsFill(w[..12], 0);
    if w == AddressWord(a) {
      assert w[..12] == Fill(12, 0) && w[12..] == a;
    }
  }

  // ----- two's complement -----

  /** Half of the numbers of `width` bytes. */
  function Half(width: nat): (h: nat)
    ensures width > 0 ==> 2 * h == BigEndian.Pow256(width)
  {
    if width == 0 then 0 else 128 * BigEndian.Pow256(width - 1)
  }

  predicate InSigned(v: int, width: nat) {
    -(Half(width) as int) <= v < Half(width)
  }

  /** The number a two's-complement string denotes: the top bit of the first byte is the sign. */
  function SignedValue(bs: Bytes): int
    requires bs != []
  {
    BigEndian.Value(bs) - if bs[0] >= 128 then BigEndian.Pow256(|bs|) else 0
  }

  function SignedBytes(v: int, width: nat): (bs: Bytes)
    requires width > 0 && InSigned(v, width)
    ensures |bs| == width
  {
    BigEndian.Fixed(Wrapped(v, width), width)
  }

  /** The unsigned number with the same bytes. */
  function Wrapped(v: int, width: nat): (n: nat)
    requires width > 0 && InSigned(v, width)
    ensures n < BigEndian.Pow256(width)
    ensures n >= Half(width) <==> v < 0
  {
    assert BigEndian.Pow256(width) == 2 * Half(width);
    if v < 0 then v + BigEndian.Pow256(width) else v
  }

  /** The top bit splits the unsigned range in half. */
  lemma TopBit(bs: Bytes)
    requires bs != []
    ensures bs[0] >= 128 <==> BigEndian.Value(bs) >= Half(|bs|)
  {
    hide BigEndian.Value;
    var rest := bs[1..];
    assert bs == [bs[0]] + rest;
    BigEndian.ValueFront(bs[0], rest);
    BigEndian.ValueBound(rest);
    LeadingBit(bs[0], BigEndian.Pow256(|rest|), BigEndian.Value(rest));
  }

  lemma LeadingBit(b: byte, p: nat, r: nat)
    requires r < p
    ensures b >= 128 <==> b * p + r >= 128 * p
  {
    BigEndian.LeadingDigit(b, 128, p, r, 0);
    if b >= 128 {
      assert b * p >= 128 * p;
    }
  }

  lemma SignedInRange(bs: Bytes)
    requires bs != []
    ensures InSigned(SignedValue(bs), |bs|) && SignedBytes(SignedValue(bs), |bs|) == bs
  {
    hide BigEndian.Value;
    hide BigEndian.Fixed;
    hide BigEndian.Pow256;
    TopBit(bs);
    BigEndian.ValueBound(bs);
    BigEndian.FixedOfValue(bs);
  }

  lemma SignedOfBytes(v: int, width: nat)
    requires width > 0 && InSigned(v, width)
    ensures SignedValue(SignedBytes(v, width)) == v
  {
    hide BigEndian.Value;
    hide BigEndian.Fixed;
    BigEndian.ValueOfFixed(Wrapped(v, width), width);
    TopBit(SignedBytes(v, width));
  }

  /** Copying the sign into more bytes keeps the number. */
  lemma SignExtension(n: nat, low: Bytes)
    requires low != []
    ensures SignedValue(Fill(n, if low[0] >= 128 then 255 else 0) + low) == SignedValue(low)
  {
    if low[0] >= 128 {
      OnesFill(n, low);
    } else {
      ZeroFill(n, low);
    }
  }

  /** Reads the low `width` bytes of a word whose other bytes all repeat the sign. */
  function DecodeSigned(w: Word, width: nat): Result<int, CoreError>
    requires 0 < width < 32
  {
    var sign := if w[32 - width] >= 128 then 255 else 0;
    if !AllEqual(w[..32 - width], sign) then Err(NonCanonical) else Ok(SignedValue(w[32 - width..]))
  }

  function SignedWord(v: int, width: nat): Word
    requires 0 < width < 32 && InSigned(v, width)
  {
    Fill(32 - width, if v < 0 then 255 else 0) + SignedBytes(v, width)
  }

  /** A word is accepted with value `v` exactly when it is the sign extension of `v`. */
  lemma SignedCanonical(w: Word, width: nat, v: int)
    requires 0 < width < 32
    ensures DecodeSigned(w, width) == Ok(v) <==> InSigned(v, width) && w == SignedWord(v, width)
  {
    var high, low := w[..32 - width], w[32 - width..];
    assert w == high + low;
    AllEqualIsFill(high, 0);
    AllEqualIsFill(high, 255);
    TopBit(low);
    BigEndian.ValueBound(low);
    SignedInRange(low);
    if InSigned(v, width) && w == SignedWord(v, width) {
      SignedWordParts(w, width, v);
    }
  }

  lemma SignedWordParts(w: Word, width: nat, v: int)
    requires 0 < width < 32 && InSigned(v, width) && w == SignedWord(v, width)
    ensures w[32 - width..] == SignedBytes(v, width)
    ensures w[..32 - width] == Fill(32 - width, if v < 0 then 255 else 0)
    ensures SignedValue(SignedBytes(v, width)) == v
    ensures w[32 - width] >= 128 <==> v < 0
  {
    SignedOfBytes(v, width);
    TopBit(SignedBytes(v, width));
    BigEndian.ValueBound(SignedBytes(v, width));
  }

  /** The whole sign-extended word is the 256-bit two's complement of the number. */
  lemma SignedWordIsTwosComplement(v: int, width: nat)
    requires 0 < width < 32 && InSigned(v, width)
    ensures InSigned(v, 32) && SignedWord(v, width) == SignedBytes(v, 32)
  {
    var low := SignedBytes(v, width);
    SignedOfBytes(v, width);
    TopBit(low);
    BigEndian.ValueBound(low);
    SignExtension(32 - width, low);
    SignedInRange(SignedWord(v, width));
  }
}
