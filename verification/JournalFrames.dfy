/** What the public journal says about the context frame of a run, byte by byte, and what its terms hash
    commits to. */
module JournalFrames {
  import opened Prelude
  import opened Uint
  import opened AbiWords
  import opened WordReaders
  import opened VolumeTerms
  import opened TermsCodec
  import opened Journals
  import opened Framing
  import opened Contexts
  import opened Chunks
  import opened ChunkTheorems
  import BigEndian
  import TermsTheorems
  import Volume

  // ----- words as bytes -----

  /** The word of a narrow number ends in its big-endian bytes. */
  lemma NarrowWord(n: nat, width: nat)
    requires 1 <= width <= 32 && n < BigEndian.Pow256(width)
    ensures UintWord(n) == Zeros(32 - width) + BigEndian.Fixed(n, width)
  {
    hide BigEndian.Value;
    hide BigEndian.Pow256;
    var narrow := BigEndian.Fixed(n, width);
    hide BigEndian.Fixed;
    BigEndian.PowMonotone(width, 32);
    BigEndian.ValueOfFixed(n, width);
    BigEndian.ValueOfFixed(n, 32);
    ZeroFill(32 - width, narrow);
    assert Fill(32 - width, 0) == Zeros(32 - width);
    SameValueSameWord(UintWord(n), Zeros(32 - width) + narrow);
  }

  lemma HeightWord(n: u64)
    ensures UintWord(n) == Zeros(24) + U64Bytes(n)
  {
    hide BigEndian.Fixed;
    BigEndian.PowersOf256();
    NarrowWord(n, 8);
  }

  lemma ByteWord(b: byte)
    ensures UintWord(b) == Zeros(31) + [b]
  {
    BigEndian.PowersOf256();
    assert BigEndian.Fixed(b, 1) == [b] by {
      assert BigEndian.Fixed(b / 256, 0) == [];
    }
    hide BigEndian.Fixed;
    NarrowWord(b, 1);
  }

  // ----- layouts -----

  /** The twenty-five words of a journal: the head, the volumes, the counts. */
  lemma JournalWords(j: Journal)
    requires j.totals.Sized()
    ensures forall k :: 0 <= k < 9 ==> WordAt(JournalBytes(j), 0, k) == HeadWords(j.head)[k]
    ensures forall i :: 0 <= i < 8 ==> WordAt(JournalBytes(j), 288, i) == j.totals.volumes[i]
    ensures forall i :: 0 <= i < 8 ==> WordAt(JournalBytes(j), 544, i) == j.totals.counts[i]
  {
    hide HeadWords;
    var data, tail := JournalBytes(j), j.totals.volumes + j.totals.counts;
    FlattenAt(HeadWords(j.head) + tail, data);
    AtConcat(data, 0, HeadWords(j.head), tail);
    AtConcat(data, 288, j.totals.volumes, j.totals.counts);
  }

  /** Magic, terms, and the fixed fields of a context frame, in their places. */
  lemma ContextSlices(c: Context)
    requires c.terms.Sized() && AllEncodable(c.terms.venues)
    ensures var f := ContextBytes(c);
            && f[..10] == Magic() && f[10..4362] == TermsBytes(c.terms)
            && f[4362..4382] == c.beneficiary && f[4382] == c.coverageMask
            && f[4383..4391] == U64Bytes(c.fromExclusive) && f[4391..4399] == U64Bytes(c.toInclusive)
            && f[4399..4431] == c.beforeHash && f[4431..4463] == c.endHash
  {
    var tail := TailBytes(c);
    SlicesOfTail(c);
    hide TermsBytes;
    hide TailBytes;
    hide Magic;
    var f := ContextBytes(c);
    assert f[10..] == TermsBytes(c.terms) + tail;
    assert f[4362..] == tail;
    TailOffsets(f, tail);
  }

  lemma TailOffsets(f: Bytes, tail: Bytes)
    requires |f| == 4463 && |tail| == 101 && f[4362..] == tail
    ensures f[4362..4382] == tail[..20] && f[4382] == tail[20]
    ensures f[4383..4391] == tail[21..29] && f[4391..4399] == tail[29..37]
    ensures f[4399..4431] == tail[37..69] && f[4431..4463] == tail[69..]
  {
    assert forall i :: 0 <= i < 101 ==> f[4362 + i] == f[4362..][i] == tail[i];
  }

  lemma ProofSuiteAt(t: Terms)
    requires t.Sized() && AllEncodable(t.venues)
    ensures TermsBytes(t)[4224..4256] == t.services.proofSuiteHash
  {
    var data := TermsBytes(t);
    FlattenAt(TermsWords(t), data);
    SectionsAt(data, t);
    hide TermsWords;
    hide TermsBytes;
    assert WordAt(data, 3904, 10) == ServicesWords(t.services)[10];
  }

  // ----- the journal of a context frame -----

  /** The head of an accepted run's journal, as bytes of the context frame: the hash of the whole terms
      section, the proof suite, the beneficiary, the mask, the range and the two block hashes. */
  ghost predicate HeadOfFrame(H: Keccak, f: Bytes, j: Bytes) {
    && |f| == CONTEXT_BYTES && |j| == JOURNAL_ABI_BYTES
    && f[..10] == Ascii("KAIVOLCH") + [0, 1]
    && j[0..32] == H(Ascii("KAI_VOLUME_SP1_RANGE_V1"))
    && j[32..64] == H(f[10..4362])
    && j[64..96] == f[4234..4266]
    && j[96..128] == Zeros(12) + f[4362..4382]
    && j[128..160] == Zeros(31) + f[4382..4383]
    && j[160..192] == Zeros(24) + f[4383..4391]
    && j[192..224] == Zeros(24) + f[4391..4399]
    && j[224..256] == f[4399..4431]
    && j[256..288] == f[4431..4463]
  }

  lemma HeadBytes(H: Keccak, c: Context, totals: FullTotals)
    requires c.terms.Sized() && AllEncodable(c.terms.venues)
    ensures HeadOfFrame(H, ContextBytes(c), JournalBytes(Journal(HeadFor(H, c), totals)))
  {
    var f, j := ContextBytes(c), Journal(HeadFor(H, c), totals);
    ContextSlices(c);
    ProofSuiteAt(c.terms);
    JournalWords(j);
    HeightWord(c.fromExclusive);
    HeightWord(c.toInclusive);
    ByteWord(c.coverageMask);
    hide JournalBytes;
    hide ContextBytes;
    hide TermsBytes;
    hide UintWord;
    hide U64Bytes;
    hide WordAt;
    var data, ws := JournalBytes(j), HeadWords(j.head);
    HeadSlices(data);
    SuiteOffset(f);
    assert f[4382..4383] == [f[4382]];
    assert Fill(12, 0) == Zeros(12);
  }

  lemma HeadSlices(data: Bytes)
    requires |data| == JOURNAL_ABI_BYTES
    ensures WordAt(data, 0, 0) == data[0..32] && WordAt(data, 0, 1) == data[32..64] && WordAt(data, 0, 2) == data[64..96]
    ensures WordAt(data, 0, 3) == data[96..128] && WordAt(data, 0, 4) == data[128..160]
    ensures WordAt(data, 0, 5) == data[160..192] && WordAt(data, 0, 6) == data[192..224]
    ensures WordAt(data, 0, 7) == data[224..256] && WordAt(data, 0, 8) == data[256..288]
  {
  }

  lemma SuiteOffset(f: Bytes)
    requires |f| == CONTEXT_BYTES
    ensures f[10..4362][4224..4256] == f[4234..4266]
  {
  }

  /** The journal of any accepted run commits to the bytes of its context frame. */
  lemma JournalOfFrame(H: Keccak, frames: seq<Bytes>)
    requires Evaluate(H, frames).Some?
    ensures frames != [] && HeadOfFrame(H, frames[0], Evaluate(H, frames).value.journal)
  {
    hide ContextOf;
    hide ValidTerms;
    hide ValidHead;
    hide Chain;
    hide CountAll;
    hide HeadOfFrame;
    hide ContextBytes;
    hide JournalBytes;
    hide HeadFor;
    var c := ContextOf(H, frames[0]).value;
    ContextCanonical(H, frames[0], c);
    var end, receipts := EvaluatedChain(H, c, frames[1..]);
    Volume.ValidIsCountable(H, c.terms);
    var tally := CountAll(c.terms, c.coverageMask, ZeroTally(), receipts);
    HeadBytes(H, c, tally.value.totals);
  }

  lemma ScheduleAt(t: Terms)
    requires t.Sized() && AllEncodable(t.venues)
    ensures BigEndian.Value(TermsBytes(t)[3680..3712]) == t.schedule.startBlock
    ensures BigEndian.Value(TermsBytes(t)[3712..3744]) == t.schedule.snapshotBlock
  {
    var data := TermsBytes(t);
    FlattenAt(TermsWords(t), data);
    SectionsAt(data, t);
    hide TermsWords;
    hide TermsBytes;
    hide UintWord;
    hide BigEndian.Value;
    assert WordAt(data, 3680, 0) == ScheduleWords(t.schedule)[0];
    assert WordAt(data, 3680, 1) == ScheduleWords(t.schedule)[1];
    TermsTheorems.SmallWord(t.schedule.startBlock);
    TermsTheorems.SmallWord(t.schedule.snapshotBlock);
  }

  /** The frames of an accepted run: one block for every height of the range that the context frame gives,
      and this range lies between the start and the snapshot block that its terms give. */
  lemma RangeOfFrame(H: Keccak, frames: seq<Bytes>)
    requires Evaluate(H, frames).Some?
    ensures frames != [] && |frames[0]| == CONTEXT_BYTES
    ensures var f := frames[0];
            var from, to := BigEndian.Value(f[4383..4391]), BigEndian.Value(f[4391..4399]);
            && BigEndian.Value(f[3690..3722]) <= from < to <= BigEndian.Value(f[3722..3754])
            && |frames| == 1 + (to - from)
  {
    hide ContextOf;
    hide ValidTerms;
    hide Chain;
    hide CountAll;
    var c := ContextOf(H, frames[0]).value;
    ContextCanonical(H, frames[0], c);
    var end, receipts := EvaluatedChain(H, c, frames[1..]);
    ValidSized(H, c.terms);
    FrameHeights(c);
    hide ContextBytes;
    hide BigEndian.Value;
    hide TermsHash;
    hide JournalDomain;
    hide ValidateMask;
  }

  lemma FrameHeights(c: Context)
    requires c.terms.Sized() && AllEncodable(c.terms.venues)
    ensures var f := ContextBytes(c);
            && BigEndian.Value(f[3690..3722]) == c.terms.schedule.startBlock
            && BigEndian.Value(f[3722..3754]) == c.terms.schedule.snapshotBlock
            && BigEndian.Value(f[4383..4391]) == c.fromExclusive && BigEndian.Value(f[4391..4399]) == c.toInclusive
  {
    ContextSlices(c);
    ScheduleAt(c.terms);
    BigEndian.PowersOf256();
    BigEndian.ValueOfFixed(c.fromExclusive, 8);
    BigEndian.ValueOfFixed(c.toInclusive, 8);
    hide ContextBytes;
    hide TermsBytes;
    hide BigEndian.Value;
    hide BigEndian.Fixed;
    var f := ContextBytes(c);
    assert f[10..4362][3680..3712] == f[3690..3722] && f[10..4362][3712..3744] == f[3722..3754];
  }

  // ----- which contexts may be run -----

  /** Under valid terms a context is accepted exactly for a range within the race, a mask that covers
      entrants only and at least one, a beneficiary and two block hashes. */
  lemma RangeAccepted(H: Keccak, c: Context)
    requires ValidTerms(H, c.terms)
    ensures ValidContext(H, c) <==>
            && c.terms.schedule.startBlock <= c.fromExclusive < c.toInclusive <= c.terms.schedule.snapshotBlock
            && (exists i :: 0 <= i < 8 && Covers(c.coverageMask, i))
            && (forall i :: c.terms.identity.entrantCount <= i < 8 ==> !Covers(c.coverageMask, i))
            && c.beneficiary != ZeroAddress() && c.beforeHash != ZeroWord() && c.endHash != ZeroWord()
  {
    ValidSized(H, c.terms);
    CountInRange(c.terms.identity);
    MaskCoversEntrants(c.coverageMask, c.terms.identity.entrantCount);
    hide Covers;
    hide ValidTerms;
    hide TermsHash;
    hide JournalDomain;
    hide ValidateMask;
  }

  /** The whole race may be run at once, for all its entrants. */
  lemma FullRangeAccepted(H: Keccak, t: Terms, beneficiary: Address, before: Hash, end: Hash)
    requires ValidTerms(H, t)
    requires beneficiary != ZeroAddress() && before != ZeroWord() && end != ZeroWord()
    ensures Pow2(t.identity.entrantCount) <= 256
    ensures ValidContext(H, Context(t, beneficiary, Pow2(t.identity.entrantCount) - 1, t.schedule.startBlock,
                                    t.schedule.snapshotBlock, before, end))
  {
    hide *;
    var n := t.identity.entrantCount;
    RaceBounds(H, t);
    FullMask(n);
    MaskCoversEntrants(Pow2(n) - 1, n);
    RangeAccepted(H, Context(t, beneficiary, Pow2(n) - 1, t.schedule.startBlock, t.schedule.snapshotBlock, before, end));
  }

  lemma FullMask(n: byte)
    requires 3 <= n <= 8
    ensures 1 < Pow2(n) <= 256 && ValidateMask(Pow2(n) - 1, n).Ok?
  {
    assert Pow2(3) == 8 && Pow2(4) == 16 && Pow2(5) == 32;
    assert Pow2(6) == 64 && Pow2(7) == 128 && Pow2(8) == 256;
  }

  lemma RaceBounds(H: Keccak, t: Terms)
    requires ValidTerms(H, t)
    ensures 3 <= t.identity.entrantCount <= 8 && t.schedule.startBlock < t.schedule.snapshotBlock
  {
    CountInRange(t.identity);
    hide ValidVenue;
    hide ValidIdentity;
    hide ValidServices;
  }

  // ----- what the terms hash commits to -----

  /** Two valid terms with one hash are the same terms, or their whole encodings collide. */
  lemma TermsHashBinds(H: Keccak, t: Terms, u: Terms)
    requires ValidTerms(H, t) && ValidTerms(H, u) && AllEncodable(t.venues) && AllEncodable(u.venues)
    requires TermsHash(H, t) == TermsHash(H, u)
    ensures t == u || Collides(H, {TermsBytes(t), TermsBytes(u)})
  {
    hide TermsBytes;
    ValidSized(H, t);
    hide ValidTerms;
    TermsCanonical(H, TermsBytes(t), t);
    TermsCanonical(H, TermsBytes(t), u);
  }

  /** The terms section of a context frame. */
  function TermsSection(f: Bytes): Bytes {
    if |f| == CONTEXT_BYTES then f[10..4362] else []
  }

  /** The nine words of a journal head. */
  function HeadSection(j: Bytes): Bytes {
    if |j| == JOURNAL_ABI_BYTES then j[..288] else []
  }

  /** One journal head has one context frame, unless two terms sections collide. */
  lemma HeadBindsFrame(H: Keccak, f: Bytes, g: Bytes, j: Bytes, k: Bytes)
    requires HeadOfFrame(H, f, j) && HeadOfFrame(H, g, k) && HeadSection(j) == HeadSection(k)
    ensures f == g || Collides(H, {TermsSection(f), TermsSection(g)})
  {
    SameSlices(j, k);
    if !Collides(H, {TermsSection(f), TermsSection(g)}) {
      assert TermsSection(f) == TermsSection(g);
      hide Ascii;
      SameTail(f[4362..4382], g[4362..4382], 12);
      SameTail(f[4382..4383], g[4382..4383], 31);
      SameTail(f[4383..4391], g[4383..4391], 24);
      SameTail(f[4391..4399], g[4391..4399], 24);
      FrameParts(f);
      FrameParts(g);
    }
  }

  lemma SameSlices(j: Bytes, k: Bytes)
    requires |j| == |k| == JOURNAL_ABI_BYTES && j[..288] == k[..288]
    ensures j[32..64] == k[32..64] && j[96..128] == k[96..128] && j[128..160] == k[128..160]
    ensures j[160..192] == k[160..192] && j[192..224] == k[192..224]
    ensures j[224..256] == k[224..256] && j[256..288] == k[256..288]
  {
    assert forall i :: 0 <= i < 288 ==> j[..288][i] == j[i] && k[..288][i] == k[i];
  }

  lemma SameTail(a: Bytes, b: Bytes, n: nat)
    requires Zeros(n) + a == Zeros(n) + b
    ensures a == b
  {
    assert (Zeros(n) + a)[n..] == a && (Zeros(n) + b)[n..] == b;
  }

  lemma FrameParts(f: Bytes)
    requires |f| == CONTEXT_BYTES
    ensures f == f[..10] + f[10..4362] + f[4362..4382] + f[4382..4383] + f[4383..4391] + f[4391..4399]
                 + f[4399..4431] + f[4431..4463]
  {
  }

  /** The first nine words of the journal decide all of it: two accepted runs with one journal head have
      one outcome, unless two different strings hashed on the way have one hash. */
  lemma JournalHeadDecides(H: Keccak, a: seq<Bytes>, b: seq<Bytes>)
    requires Evaluate(H, a).Some? && Evaluate(H, b).Some?
    requires HeadSection(Evaluate(H, a).value.journal) == HeadSection(Evaluate(H, b).value.journal)
    ensures || Evaluate(H, a) == Evaluate(H, b)
            || Collides(H, {TermsSection(a[0]), TermsSection(b[0])})
            || Collides(H, RunStrings(H, a[1..]) + RunStrings(H, b[1..]))
  {
    hide Evaluate;
    hide RunStrings;
    JournalOfFrame(H, a);
    JournalOfFrame(H, b);
    hide HeadOfFrame;
    HeadBindsFrame(H, a[0], b[0], Evaluate(H, a).value.journal, Evaluate(H, b).value.journal);
    if a[0] == b[0] {
      WitnessIndependence(H, a, b);
    }
  }

  // ----- which strings are journals -----

  /** The bytes of a journal for given terms: the fixed hashes, padding before every narrow field, a
      beneficiary, a mask that covers entrants, a range within the race, two block hashes, and zeros for
      every slot outside the mask. */
  ghost predicate JournalFor(H: Keccak, data: Bytes, t: Terms)
    requires t.Sized() && AllEncodable(t.venues)
  {
    && |data| == 800
    && HeadFits(H, data, t)
    && (forall i :: 0 <= i < 8 && !Covers(data[159], i) ==>
          data[288 + 32 * i..320 + 32 * i] == Zeros(32) && data[544 + 32 * i..576 + 32 * i] == Zeros(32))
  }

  ghost predicate HeadFits(H: Keccak, data: Bytes, t: Terms)
    requires t.Sized() && AllEncodable(t.venues) && |data| == 800
  {
    && data[0..32] == H(Ascii("KAI_VOLUME_SP1_RANGE_V1"))
    && data[32..64] == H(TermsBytes(t)) && data[64..96] == t.services.proofSuiteHash
    && data[96..108] == Zeros(12) && data[108..128] != Zeros(20)
    && data[128..159] == Zeros(31)
    && (exists i :: 0 <= i < 8 && Covers(data[159], i))
    && (forall i :: t.identity.entrantCount <= i < 8 ==> !Covers(data[159], i))
    && data[160..184] == Zeros(24) && data[192..216] == Zeros(24)
    && t.schedule.startBlock <= BigEndian.Value(data[184..192]) < BigEndian.Value(data[216..224])
       <= t.schedule.snapshotBlock
    && data[224..256] != Zeros(32) && data[256..288] != Zeros(32)
  }

  lemma NarrowRead(w: Word, width: nat)
    requires width <= 32
    ensures AllEqual(w[..32 - width], 0) <==> w[..32 - width] == Zeros(32 - width)
    ensures AllEqual(w[..32 - width], 0) ==> WordValue(w) == BigEndian.Value(w[32 - width..])
  {
    AllEqualIsFill(w[..32 - width], 0);
    assert Fill(32 - width, 0) == Zeros(32 - width);
    if AllEqual(w[..32 - width], 0) {
      ZeroFill(32 - width, w[32 - width..]);
      assert w == w[..32 - width] + w[32 - width..];
    }
  }

  lemma ByteRead(w: Word)
    ensures U8Of(w) == if w[..31] == Zeros(31) then Ok(w[31]) else Err(NonCanonical)
  {
    NarrowRead(w, 1);
    assert w[31..] == [w[31]];
    assert BigEndian.Value([w[31]]) == w[31] by {
      assert [w[31]][..0] == [];
    }
    hide BigEndian.Value;
    hide AllEqual;
  }

  lemma HeightRead(w: Word)
    ensures U64Of(w) ==
            if w[..24] == Zeros(24) then
              U64Value(w[24..]);
              Ok(BigEndian.Value(w[24..]))
            else Err(NonCanonical)
  {
    NarrowRead(w, 8);
    U64Value(w[24..]);
    hide BigEndian.Value;
    hide AllEqual;
  }

  lemma HeadRead(data: Bytes)
    requires |data| == 800
    ensures HeadOf(data, 0).Ok? <==>
            && data[96..108] == Zeros(12) && data[128..159] == Zeros(31)
            && data[160..184] == Zeros(24) && data[192..216] == Zeros(24)
    ensures HeadOf(data, 0).Ok? ==>
              var h := HeadOf(data, 0).value;
              && h.domain == data[0..32] && h.termsHash == data[32..64] && h.proofSuiteHash == data[64..96]
              && h.beneficiary == data[108..128] && h.coverageMask == data[159]
              && h.fromExclusive == BigEndian.Value(data[184..192]) && h.toInclusive == BigEndian.Value(data[216..224])
              && h.beforeHash == data[224..256] && h.endHash == data[256..288]
  {
    HeadSlices(data);
    var w3, w4, w5, w6 := WordAt(data, 0, 3), WordAt(data, 0, 4), WordAt(data, 0, 5), WordAt(data, 0, 6);
    ByteRead(w4);
    HeightRead(w5);
    HeightRead(w6);
    AllEqualIsFill(w3[..12], 0);
    assert Fill(12, 0) == Zeros(12);
    PartsOf(data, 96, 12);
    PartsOf(data, 128, 31);
    PartsOf(data, 160, 24);
    PartsOf(data, 192, 24);
    assert w4[31] == data[159];
    hide AllEqual;
    hide BigEndian.Value;
    hide U8Of;
    hide U64Of;
    hide WordAt;
  }

  lemma PartsOf(data: Bytes, pos: nat, k: nat)
    requires pos + 32 <= |data| && k <= 32
    ensures data[pos..pos + 32][..k] == data[pos..pos + k] && data[pos..pos + 32][k..] == data[pos + k..pos + 32]
  {
  }

  lemma HeadAccepted(H: Keccak, data: Bytes, t: Terms)
    requires ValidTerms(H, t) && t.Sized() && AllEncodable(t.venues) && |data| == 800
    ensures (HeadOf(data, 0).Ok? && ValidHead(H, HeadOf(data, 0).value, t)) <==> HeadFits(H, data, t)
  {
    HeadRead(data);
    hide ValidTerms;
    hide TermsBytes;
    hide Ascii;
    hide HeadOf;
    hide ValidHead;
    hide BigEndian.Value;
    hide Covers;
    hide Zeros;
    if HeadOf(data, 0).Ok? {
      HeadMeets(H, HeadOf(data, 0).value, t);
    }
  }

  lemma HeadMeets(H: Keccak, h: Head, t: Terms)
    requires ValidTerms(H, t) && t.Sized() && AllEncodable(t.venues)
    ensures ValidHead(H, h, t) <==>
            && h.domain == H(Ascii("KAI_VOLUME_SP1_RANGE_V1")) && h.termsHash == H(TermsBytes(t))
            && h.proofSuiteHash == t.services.proofSuiteHash && h.beneficiary != Zeros(20)
            && (exists i :: 0 <= i < 8 && Covers(h.coverageMask, i))
            && (forall i :: t.identity.entrantCount <= i < 8 ==> !Covers(h.coverageMask, i))
            && t.schedule.startBlock <= h.fromExclusive < h.toInclusive <= t.schedule.snapshotBlock
            && h.beforeHash != Zeros(32) && h.endHash != Zeros(32)
  {
    CountInRange(t.identity);
    MaskCoversEntrants(h.coverageMask, t.identity.entrantCount);
    EmptyWords();
    hide ValidTerms;
    hide TermsBytes;
    hide Ascii;
    hide Covers;
    hide ValidateMask;
    hide Zeros;
  }

  lemma EmptyWords()
    ensures ZeroWord() == Zeros(32) && ZeroAddress() == Zeros(20)
  {
  }

  /** A string decodes as a journal for valid terms exactly when its bytes are these. */
  lemma JournalAccepted(H: Keccak, data: Bytes, t: Terms)
    requires ValidTerms(H, t) && t.Sized() && AllEncodable(t.venues)
    ensures JournalOf(H, data, t).Some? <==> JournalFor(H, data, t)
  {
    if |data| == 800 {
      HeadAccepted(H, data, t);
      PaddingRead(data);
      HeadRead(data);
    }
    hide HeadOf;
    hide HeadFits;
    hide ValidHead;
    hide Padded;
    hide Covers;
    hide WordsOf;
  }

  /** The totals outside the mask, read off the bytes. */
  lemma PaddingRead(data: Bytes)
    requires |data| == 800
    ensures Padded(data[159], Totals(WordsOf(data, 288, 8), WordsOf(data, 544, 8))) <==>
            forall i :: 0 <= i < 8 && !Covers(data[159], i) ==>
              data[288 + 32 * i..320 + 32 * i] == Zeros(32) && data[544 + 32 * i..576 + 32 * i] == Zeros(32)
  {
    hide Covers;
    var volumes, counts := WordsOf(data, 288, 8), WordsOf(data, 544, 8);
    forall i | 0 <= i < 8
      ensures volumes[i] == data[288 + 32 * i..320 + 32 * i] && counts[i] == data[544 + 32 * i..576 + 32 * i]
    {
      assert volumes[i] == WordAt(data, 288, i) && counts[i] == WordAt(data, 544, i);
    }
  }
}
