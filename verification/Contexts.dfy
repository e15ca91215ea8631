/** The context frame: everything a run is about, in 4,463 bytes. */
module Contexts {
  import opened Prelude
  import opened Uint
  import opened VolumeTerms
  import opened TermsCodec
  import opened Framing
  import BigEndian

  const CONTEXT_BYTES: nat := 4463

  datatype Context = Context(
    terms: Terms, beneficiary: Address, coverageMask: byte, fromExclusive: u64, toInclusive: u64,
    beforeHash: Hash, endHash: Hash)

  /** The name of the format and version 1 in two bytes. */
  function Magic(): (bs: Bytes)
    ensures |bs| == 10
  {
    Ascii("KAIVOLCH") + [0, 1]
  }

  function TailBytes(c: Context): (bs: Bytes)
    ensures |bs| == 101
  {
    c.beneficiary + ([c.coverageMask] + (U64Bytes(c.fromExclusive) + (U64Bytes(c.toInclusive) + (c.beforeHash + c.endHash))))
  }

  function ContextBytes(c: Context): (bs: Bytes)
    requires c.terms.Sized() && AllEncodable(c.terms.venues)
    ensures |bs| == CONTEXT_BYTES
  {
    Magic() + (TermsBytes(c.terms) + TailBytes(c))
  }

  /** The context a byte string frames, if any: layout, magic and version, and valid terms. */
  ghost function ContextOf(H: Keccak, bytes: Bytes): Option<Context> {
    if |bytes| != CONTEXT_BYTES || bytes[..10] != Magic() then None
    else
      var terms :- TermsOf(H, bytes[10..4362]);
      Some(TailOf(terms, bytes[4362..]))
  }

  function TailOf(terms: Terms, tail: Bytes): Context
    requires |tail| == 101
  {
    U64Value(tail[21..29]);
    U64Value(tail[29..37]);
    Context(terms, tail[..20], tail[20], BigEndian.Value(tail[21..29]), BigEndian.Value(tail[29..37]),
            tail[37..69], tail[69..])
  }

  lemma TailCanonical(tail: Bytes, c: Context)
    requires |tail| == 101
    ensures TailOf(c.terms, tail) == c <==> tail == TailBytes(c)
  {
    BigEndian.PowersOf256();
    BigEndian.ValueOfFixed(c.fromExclusive, 8);
    BigEndian.ValueOfFixed(c.toInclusive, 8);
    BigEndian.FixedOfValue(tail[21..29]);
    BigEndian.FixedOfValue(tail[29..37]);
    hide BigEndian.Fixed;
    hide BigEndian.Value;
    hide BigEndian.Pow256;
    TailSlices(tail);
    if tail == TailBytes(c) {
      SlicesOfTail(c);
    }
  }

  lemma TailSlices(tail: Bytes)
    requires |tail| == 101
    ensures tail == tail[..20] + ([tail[20]] + (tail[21..29] + (tail[29..37] + (tail[37..69] + tail[69..]))))
  {
    assert tail[37..] == tail[37..69] + tail[69..];
    assert tail[29..] == tail[29..37] + tail[37..];
    assert tail[21..] == tail[21..29] + tail[29..];
    assert tail[20..] == [tail[20]] + tail[21..];
    assert tail == tail[..20] + tail[20..];
  }

  lemma SlicesOfTail(c: Context)
    ensures var tail := TailBytes(c);
            && tail[..20] == c.beneficiary && tail[20] == c.coverageMask
            && tail[21..29] == U64Bytes(c.fromExclusive) && tail[29..37] == U64Bytes(c.toInclusive)
            && tail[37..69] == c.beforeHash && tail[69..] == c.endHash
  {
    hide U64Bytes;
  }

  /** Decoding and encoding are inverse on exactly the contexts with valid terms. */
  lemma ContextCanonical(H: Keccak, bytes: Bytes, c: Context)
    ensures ContextOf(H, bytes) == Some(c) <==>
            ValidTerms(H, c.terms) && AllEncodable(c.terms.venues) && bytes == ContextBytes(c)
  {
    hide ValidTerms;
    hide TermsOf;
    hide TermsBytes;
    hide TailBytes;
    hide TailOf;
    hide Magic;
    ValidSized(H, c.terms);
    if |bytes| == CONTEXT_BYTES {
      var terms, tail := bytes[10..4362], bytes[4362..];
      assert bytes == bytes[..10] + (terms + tail);
      TermsCanonical(H, terms, c.terms);
      TailCanonical(tail, c);
      TailTerms(c.terms, tail);
      if TermsOf(H, terms).Some? {
        TailTerms(TermsOf(H, terms).value, tail);
      }
      if ValidTerms(H, c.terms) {
        Split(bytes, terms, tail, Magic(), TermsBytes(c.terms), TailBytes(c));
      }
    }
  }

  lemma TailTerms(terms: Terms, tail: Bytes)
    requires |tail| == 101
    ensures TailOf(terms, tail).terms == terms
  {
  }

  lemma Split(bytes: Bytes, terms: Bytes, tail: Bytes, magic: Bytes, x: Bytes, y: Bytes)
    requires |magic| == 10 && |x| == |terms| && |bytes| >= 10 && bytes == bytes[..10] + (terms + tail)
    ensures bytes == magic + (x + y) <==> bytes[..10] == magic && terms == x && tail == y
  {
    if bytes == magic + (x + y) {
      assert bytes[..10] == magic && bytes[10..] == x + y && bytes[10..] == terms + tail;
      assert (terms + tail)[..|x|] == terms && (x + y)[..|x|] == x;
      assert (terms + tail)[|x|..] == tail && (x + y)[|x|..] == y;
    }
  }

  method EncodeContext(H: Keccak, c: Context) returns (r: Result<Bytes, FramingError>)
    requires c.terms.Sized()
    ensures r.Ok? <==> ValidTerms(H, c.terms)
    ensures r.Ok? ==> AllEncodable(c.terms.venues) && r.value == ContextBytes(c)
  {
    hide ValidTerms;
    hide TermsBytes;
    var terms := EncodeTerms(H, c.terms);
    if terms.Err? {
      return Err(BadTerms);
    }
    r := Ok(Magic() + (terms.value + TailBytes(c)));
  }

  method DecodeContext(H: Keccak, bytes: Bytes) returns (r: Result<Context, FramingError>)
    ensures ContextOf(H, bytes) == if r.Ok? then Some(r.value) else None
  {
    hide TermsOf;
    hide Magic;
    if |bytes| != CONTEXT_BYTES {
      return Err(ContextLength);
    }
    var reader := new FrameReader(bytes);
    var magic := reader.Take(10);
    if magic != Ok(Magic()) {
      return Err(MagicOrVersion);
    }
    var abi := reader.Take(TERMS_ABI_BYTES);
    assert bytes[10..][..4352] == bytes[10..4362] && bytes[10..][4352..] == bytes[4362..];
    var terms := DecodeTerms(H, abi.value);
    if terms.Err? {
      return Err(BadTerms);
    }
    var c := ReadTail(reader, terms.value);
    r := Ok(c);
  }

  /** The fixed-width fields after the terms. */
  method ReadTail(reader: FrameReader, terms: Terms) returns (c: Context)
    requires |reader.remaining| == 101
    modifies reader
    ensures c == TailOf(terms, old(reader.remaining)) && reader.remaining == []
  {
    ghost var tail := reader.remaining;
    var beneficiary := reader.Take(20);
    var mask := reader.Take(1);
    var fromExclusive := reader.U64();
    var toInclusive := reader.U64();
    var beforeHash := reader.Take(32);
    var endHash := reader.Take(32);
    hide BigEndian.Value;
    assert tail[20..][..1] == [tail[20]] && tail[20..][1..] == tail[21..];
    assert tail[21..][..8] == tail[21..29] && tail[21..][8..] == tail[29..];
    assert tail[29..][..8] == tail[29..37] && tail[29..][8..] == tail[37..];
    assert tail[37..][..32] == tail[37..69] && tail[37..][32..] == tail[69..];
    assert tail[69..][..32] == tail[69..] && tail[69..][32..] == [];
    c := Context(terms, beneficiary.value, mask.value[0], fromExclusive.value, toInclusive.value,
                 beforeHash.value, endHash.value);
  }
}
