/** Whole-run properties of the chunk relation: exact totals, witness independence and tiling. */
module ChunkTheorems {
  import opened Prelude
  import opened Uint
  import opened AbiWords
  import opened Unfolding
  import opened LookupProof
  import opened HashOrder
  import opened ReceiptWalk
  import opened VisitReceipts
  import opened VolumeTerms
  import opened Journals
  import opened Volume
  import opened VolumeSums
  import opened Receipts
  import opened Headers
  import opened Framing
  import opened Contexts
  import opened Chunks

  // ----- exact totals -----

  lemma ZeroStart(i: nat)
    requires i < 8
    ensures WordValue(ZeroTotals().volumes[i]) == 0 == WordValue(ZeroTotals().counts[i])
  {
    ZeroFill(32, []);
    assert Fill(32, 0) + [] == ZeroWord();
  }

  /** What a run over a valid chain yields: it is accepted exactly when the range is met, no log of a
      pinned pool is malformed and every sum and counter fits; its journal then carries the exact sums
      over the logs of all successful receipts. */
  ghost predicate Yields(
    H: Keccak, c: Context, blocks: seq<Bytes>, end: Hash, receipts: seq<Receipt>, totals: FullTotals,
    r: Option<Outcome>)
    requires Countable(c.terms) && c.terms.Sized() && AllEncodable(c.terms.venues)
  {
    var logs := SuccessLogs(receipts);
    && (r.Some? <==>
          && |blocks| == c.toInclusive - c.fromExclusive && end == c.endHash
          && WellFormedLogs(c.terms, logs) && SumsFit(c.terms, c.coverageMask, ZeroTotals(), logs)
          && |receipts| < U64_LIMIT && CountersFit(ZeroTally(), receipts))
    && (r.Some? ==>
          && Sums(c.terms, c.coverageMask, ZeroTotals(), logs, totals)
          && r.value.journal == JournalBytes(Journal(HeadFor(H, c), totals))
          && r.value.diagnostics == Diagnostics(|blocks|, |receipts|, FailedCount(receipts), LogCount(receipts)))
  }

  /** The outcome of a run over a valid chain, as exact sums. The final journal is always valid: encoding
      it cannot fail. */
  lemma EvaluatedTotals(H: Keccak, c: Context, blocks: seq<Bytes>, end: Hash, receipts: seq<Receipt>)
    returns (totals: FullTotals)
    requires ValidContext(H, c) && Chain(H, c.fromExclusive, c.beforeHash, blocks) == Some((end, receipts))
    ensures Countable(c.terms) && AllEncodable(c.terms.venues) && Yields(H, c, blocks, end, receipts, totals, EvaluateBlocks(H, c, blocks))
    ensures EvaluateBlocks(H, c, blocks).Some? ==> ValidJournal(H, Journal(HeadFor(H, c), totals), c.terms)
  {
    hide ValidTerms;
    hide ValidHead;
    hide Chain;
    hide RecordAll;
    hide CountAll;
    hide Sums;
    hide SumsFit;
    hide WellFormedLogs;
    hide JournalBytes;
    hide HeadFor;
    hide SuccessLogs;
    ValidIsCountable(H, c.terms);
    var logs := SuccessLogs(receipts);
    CountAllMeaning(c.terms, c.coverageMask, ZeroTally(), receipts);
    TotalsAreSums(c.terms, c.coverageMask, ZeroTotals(), logs);
    var recorded := RecordAll(c.terms, c.coverageMask, ZeroTotals(), logs);
    totals := if recorded.Ok? then recorded.value else ZeroTotals();
    if recorded.Ok? {
      UncoveredZero(c.terms, c.coverageMask, logs, totals);
      HeadMask(H, c);
    }
  }

  lemma HeadMask(H: Keccak, c: Context)
    requires ValidContext(H, c)
    ensures HeadFor(H, c).coverageMask == c.coverageMask
  {
  }

  /** Sums leave the slots outside the mask at zero. */
  lemma UncoveredZero(t: Terms, mask: byte, logs: seq<Log>, totals: FullTotals)
    requires Countable(t) && Sums(t, mask, ZeroTotals(), logs, totals)
    ensures Padded(mask, totals)
  {
    hide WordValue;
    hide VolumeSum;
    hide CountSum;
    hide Covers;
    forall i | 0 <= i < 8 && !Covers(mask, i) ensures totals.volumes[i] == ZeroWord() == totals.counts[i] {
      assert SlotSum(t, mask, ZeroTotals(), logs, totals, i);
      UncoveredStay(t, mask, logs, i);
      SameValue(totals.volumes[i], ZeroTotals().volumes[i]);
      SameValue(totals.counts[i], ZeroTotals().counts[i]);
    }
  }

  lemma EvaluatedChain(H: Keccak, c: Context, blocks: seq<Bytes>) returns (end: Hash, receipts: seq<Receipt>)
    requires ValidContext(H, c) && EvaluateBlocks(H, c, blocks).Some?
    ensures Chain(H, c.fromExclusive, c.beforeHash, blocks) == Some((end, receipts))
    ensures end == c.endHash && |blocks| == c.toInclusive - c.fromExclusive
  {
    hide Chain;
    hide ValidContext;
    hide CountAll;
    var last := Chain(H, c.fromExclusive, c.beforeHash, blocks).value;
    end, receipts := last.0, last.1;
  }

  /** The public journal of an accepted run decodes to the context it was given and to the exact sums. */
  lemma JournalReports(H: Keccak, c: Context, blocks: seq<Bytes>) returns (j: Journal, receipts: seq<Receipt>)
    requires ValidContext(H, c) && EvaluateBlocks(H, c, blocks).Some?
    ensures Chain(H, c.fromExclusive, c.beforeHash, blocks) == Some((c.endHash, receipts))
    ensures JournalOf(H, EvaluateBlocks(H, c, blocks).value.journal, c.terms) == Some(j)
    ensures j.head.termsHash == TermsHash(H, c.terms) && j.head.proofSuiteHash == c.terms.services.proofSuiteHash
    ensures j.head.beneficiary == c.beneficiary && j.head.coverageMask == c.coverageMask
    ensures j.head.fromExclusive == c.fromExclusive && j.head.toInclusive == c.toInclusive
    ensures j.head.beforeHash == c.beforeHash && j.head.endHash == c.endHash
    ensures Countable(c.terms) && j.totals.Sized()
            && Sums(c.terms, c.coverageMask, ZeroTotals(), SuccessLogs(receipts), j.totals)
  {
    var end;
    end, receipts := EvaluatedChain(H, c, blocks);
    var totals := EvaluatedTotals(H, c, blocks, end, receipts);
    j := Journal(HeadFor(H, c), totals);
    JournalCanonical(H, JournalBytes(j), j, c.terms);
    hide ValidContext;
    hide EvaluateBlocks;
    hide Chain;
    hide JournalOf;
    hide JournalBytes;
    hide ValidJournal;
    hide Sums;
    hide SumsFit;
    hide WellFormedLogs;
    hide SuccessLogs;
    hide TermsHash;
  }

  /** A run given by a valid context and its blocks. */
  lemma EvaluatedFrames(H: Keccak, c: Context, blocks: seq<Bytes>)
    requires ValidContext(H, c)
    ensures Evaluate(H, [ContextBytes(c)] + blocks) == EvaluateBlocks(H, c, blocks)
  {
    ContextCanonical(H, ContextBytes(c), c);
    hide ContextOf;
    hide EvaluateBlocks;
    hide ContextBytes;
    hide ValidContext;
    assert ([ContextBytes(c)] + blocks)[1..] == blocks;
  }

  // ----- linked blocks -----

  /** The header of a block frame. */
  ghost function HeaderOf(H: Keccak, frame: Bytes): Option<Header> {
    var (encoded, _) :- BlockOf(H, frame);
    ParseHeader(encoded)
  }

  /** The hash of a block frame: that of its header bytes. */
  ghost function BlockHash(H: Keccak, frame: Bytes): Option<Hash> {
    var (encoded, _) :- BlockOf(H, frame);
    Some(H(encoded))
  }

  /** The blocks of an accepted chain have consecutive numbers, and each names the one before it as its
      parent. */
  lemma {:induction false} ChainLinks(H: Keccak, height: nat, parent: Hash, frames: seq<Bytes>, i: nat)
    requires Chain(H, height, parent, frames).Some? && i < |frames|
    ensures HeaderOf(H, frames[i]).Some? && BlockHash(H, frames[i]).Some?
    ensures HeaderOf(H, frames[i]).value.number == height + i + 1
    ensures Some(HeaderOf(H, frames[i]).value.parentHash) == if i == 0 then Some(parent) else BlockHash(H, frames[i - 1])
    ensures BlockHash(H, frames[|frames| - 1]) == Some(Chain(H, height, parent, frames).value.0)
  {
    hide BlockOf;
    hide ParseHeader;
    hide CompleteReceipts;
    hide ReceiptsOf;
    hide ReceiptVisits;
    var k := |frames| - 1;
    if i < k {
      ChainLinks(H, height, parent, frames[..k], i);
    } else if k > 0 {
      ChainLinks(H, height, parent, frames[..k], k - 1);
    }
  }

  // ----- witness independence -----

  /** The strings hashed by a block frame: its header and its corpus nodes. */
  ghost function FrameStrings(H: Keccak, frame: Bytes): set<Bytes> {
    match BlockOf(H, frame)
    case None => {}
    case Some((header, nodes)) => {header} + Elements(nodes)
  }

  ghost function RunStrings(H: Keccak, frames: seq<Bytes>): set<Bytes> {
    if frames == [] then {}
    else RunStrings(H, frames[..|frames| - 1]) + FrameStrings(H, frames[|frames| - 1])
  }

  lemma FewerCollide(H: Keccak, small: set<Bytes>, large: set<Bytes>)
    requires small <= large && !Collides(H, large)
    ensures !Collides(H, small)
  {
  }

  /** One root has one complete list, whichever corpora establish it. */
  lemma ListBound(H: Keccak, root: Hash, a: seq<Bytes>, b: seq<Bytes>)
    requires CompleteReceipts(H, root, a).Some? && CompleteReceipts(H, root, b).Some?
    requires !Collides(H, Elements(a) + Elements(b))
    ensures CompleteReceipts(H, root, a) == CompleteReceipts(H, root, b)
    ensures root != EmptyRoot(H) ==> Elements(a) == Elements(b)
  {
    if root != EmptyRoot(H) {
      var t, v :| Commits(H, root, a, t, v) && CompleteReceipts(H, root, a) == Some(v);
      var u, w :| Commits(H, root, b, u, w) && CompleteReceipts(H, root, b) == Some(w);
      RootBindsTrie(H, t, u);
      HeldListUnique(t, v, w);
    }
  }

  /** Two block frames that end in one hash establish the same block on the same parent. */
  lemma BlockBound(H: Keccak, x: Bytes, y: Bytes, number: nat, p: Hash, q: Hash)
    requires BlockReceipts(H, x, number, p).Some? && BlockReceipts(H, y, number, q).Some?
    requires BlockReceipts(H, x, number, p).value.0 == BlockReceipts(H, y, number, q).value.0
    requires !Collides(H, FrameStrings(H, x) + FrameStrings(H, y))
    ensures p == q && BlockReceipts(H, x, number, p) == BlockReceipts(H, y, number, q)
  {
    hide BlockOf;
    hide ParseHeader;
    hide CompleteReceipts;
    hide ReceiptsOf;
    hide ReceiptVisits;
    var (h, a) := BlockOf(H, x).value;
    var (k, b) := BlockOf(H, y).value;
    var strings := FrameStrings(H, x) + FrameStrings(H, y);
    assert h in strings && k in strings;
    assert h == k;
    FewerCollide(H, Elements(a) + Elements(b), strings);
    ListBound(H, ParseHeader(h).value.receiptsRoot, a, b);
  }

  lemma RunStringsParts(H: Keccak, frames: seq<Bytes>)
    requires frames != []
    ensures FrameStrings(H, frames[|frames| - 1]) <= RunStrings(H, frames)
    ensures RunStrings(H, frames[..|frames| - 1]) <= RunStrings(H, frames)
  {
    hide FrameStrings;
  }

  /** Backwards from a common last hash, two chains of one length are the same chain. */
  lemma {:induction false} ChainBound(H: Keccak, height: nat, p: Hash, q: Hash, x: seq<Bytes>, y: seq<Bytes>)
    requires |x| == |y| && Chain(H, height, p, x).Some? && Chain(H, height, q, y).Some?
    requires Chain(H, height, p, x).value.0 == Chain(H, height, q, y).value.0
    requires !Collides(H, RunStrings(H, x) + RunStrings(H, y))
    ensures p == q && Chain(H, height, p, x) == Chain(H, height, q, y)
  {
    if x != [] {
      var k := |x| - 1;
      RunStringsParts(H, x);
      RunStringsParts(H, y);
      LastBlock(H, height, p, x);
      LastBlock(H, height, q, y);
      hide *;
      var strings := RunStrings(H, x) + RunStrings(H, y);
      FewerCollide(H, FrameStrings(H, x[k]) + FrameStrings(H, y[k]), strings);
      FewerCollide(H, RunStrings(H, x[..k]) + RunStrings(H, y[..k]), strings);
      BlockBound(H, x[k], y[k], height + |x|, Chain(H, height, p, x[..k]).value.0, Chain(H, height, q, y[..k]).value.0);
      ChainBound(H, height, p, q, x[..k], y[..k]);
    }
  }

  /** The last block of a chain on top of the others. */
  lemma LastBlock(H: Keccak, height: nat, parent: Hash, frames: seq<Bytes>)
    requires frames != [] && Chain(H, height, parent, frames).Some?
    ensures var front := Chain(H, height, parent, frames[..|frames| - 1]);
            front.Some? &&
            var block := BlockReceipts(H, frames[|frames| - 1], height + |frames|, front.value.0);
            && block.Some?
            && Chain(H, height, parent, frames).value == (block.value.0, front.value.1 + block.value.1)
  {
    hide BlockReceipts;
  }

  /** The journal is determined by the context frame alone: two accepted runs with one context have the
      same outcome, unless two different headers or trie nodes among their frames have one hash. */
  lemma WitnessIndependence(H: Keccak, a: seq<Bytes>, b: seq<Bytes>)
    requires Evaluate(H, a).Some? && Evaluate(H, b).Some? && a[0] == b[0]
    ensures Evaluate(H, a) == Evaluate(H, b) || Collides(H, RunStrings(H, a[1..]) + RunStrings(H, b[1..]))
  {
    hide ContextOf;
    hide ValidContext;
    hide Chain;
    hide CountAll;
    hide Collides;
    var c := ContextOf(H, a[0]).value;
    if !Collides(H, RunStrings(H, a[1..]) + RunStrings(H, b[1..])) {
      ChainBound(H, c.fromExclusive, c.beforeHash, c.beforeHash, a[1..], b[1..]);
    }
  }

  // ----- canonical block frames -----

  /** Two accepted frames for one header are byte-identical as soon as the block has receipts. */
  lemma FramesIdentical(H: Keccak, x: Bytes, y: Bytes, number: nat, parent: Hash)
    requires BlockReceipts(H, x, number, parent).Some? && BlockReceipts(H, y, number, parent).Some?
    requires BlockOf(H, x).value.0 == BlockOf(H, y).value.0
    requires ParseHeader(BlockOf(H, x).value.0).value.receiptsRoot != EmptyRoot(H)
    ensures x == y || Collides(H, FrameStrings(H, x) + FrameStrings(H, y))
  {
    hide ParseHeader;
    hide CompleteReceipts;
    var (h, a) := BlockOf(H, x).value;
    var b := BlockOf(H, y).value.1;
    var strings := FrameStrings(H, x) + FrameStrings(H, y);
    if !Collides(H, strings) {
      FewerCollide(H, Elements(a) + Elements(b), strings);
      ListBound(H, ParseHeader(h).value.receiptsRoot, a, b);
      FrameCanonical(H, x, h, a);
      FrameCanonical(H, y, h, b);
      AscendingUnique(H, a, b);
    }
  }

  /** Without receipts there are two: the empty corpus and the lone empty-string node. */
  lemma EmptyBlockFrames(H: Keccak, header: Bytes, number: nat, parent: Hash, nodes: seq<Bytes>)
    requires |header| < U64_LIMIT && ParseHeader(header).Some?
    requires ParseHeader(header).value.receiptsRoot == EmptyRoot(H)
    requires ParseHeader(header).value.number == number && ParseHeader(header).value.parentHash == parent
    requires Framable(header, nodes) && HashAscending(H, nodes)
    ensures BlockReceipts(H, FrameBytes(header, nodes), number, parent).Some? <==> nodes == [] || nodes == [[0x80]]
    ensures nodes == [] || nodes == [[0x80]] ==>
              BlockReceipts(H, FrameBytes(header, nodes), number, parent) == Some((H(header), []))
  {
    hide ParseHeader;
    FrameCanonical(H, FrameBytes(header, nodes), header, nodes);
    assert ReceiptVisits([]) == [];
  }

  /** So a header without receipts always has two different accepted frames, for one and the same block. */
  lemma EmptyBlockTwice(H: Keccak, header: Bytes)
    requires |header| < U64_LIMIT && ParseHeader(header).Some?
    requires ParseHeader(header).value.receiptsRoot == EmptyRoot(H)
    ensures var h, x, y := ParseHeader(header).value, FrameBytes(header, []), FrameBytes(header, [[0x80]]);
            && x != y
            && BlockReceipts(H, x, h.number, h.parentHash) == Some((H(header), []))
            && BlockReceipts(H, y, h.number, h.parentHash) == Some((H(header), []))
  {
    hide ParseHeader;
    hide BlockReceipts;
    hide BlockOf;
    hide FrameBytes;
    var h := ParseHeader(header).value;
    EmptyBlockFrames(H, header, h.number, h.parentHash, []);
    EmptyBlockFrames(H, header, h.number, h.parentHash, [[0x80]]);
    FrameCanonical(H, FrameBytes(header, []), header, []);
    FrameCanonical(H, FrameBytes(header, [[0x80]]), header, [[0x80]]);
  }

  /** Encoding an accepted frame again gives the frame back, byte by byte. */
  lemma FrameReencoded(H: Keccak, bytes: Bytes, header: Bytes, nodes: seq<Bytes>)
    requires BlockOf(H, bytes) == Some((header, nodes))
    ensures DistinctHashes(H, nodes) && Framable(header, nodes)
    ensures FrameBytes(header, SortByHash(H, nodes)) == bytes
  {
    hide BlockOf;
    hide SortByHash;
    hide HashAscending;
    FrameCanonical(H, bytes, header, nodes);
    SortedStays(H, nodes);
    AscendingIsDistinct(H, nodes);
  }

  /** Sorting keeps an ascending corpus. */
  lemma SortedStays(H: Keccak, nodes: seq<Bytes>)
    requires HashAscending(H, nodes)
    ensures SortByHash(H, nodes) == nodes
  {
    AscendingIsDistinct(H, nodes);
    SortAscending(H, nodes);
    SortElements(H, nodes);
    AscendingUnique(H, SortByHash(H, nodes), nodes);
  }

  // ----- range tiling -----

  lemma {:induction false} ChainConcat(H: Keccak, height: nat, parent: Hash, x: seq<Bytes>, y: seq<Bytes>)
    ensures var first := Chain(H, height, parent, x);
            Chain(H, height, parent, x + y) ==
            if first.None? then None
            else
              var second := Chain(H, height + |x|, first.value.0, y);
              if second.None? then None
              else Some((second.value.0, first.value.1 + second.value.1))
  {
    hide BlockReceipts;
    if y == [] {
      assert x + y == x;
      var first := Chain(H, height, parent, x);
      if first.Some? {
        assert first.value.1 + [] == first.value.1;
      }
    } else {
      var k := |y| - 1;
      ChainConcat(H, height, parent, x, y[..k]);
      assert (x + y)[..|x + y| - 1] == x + y[..k];
      var first := Chain(H, height, parent, x);
      if first.Some? {
        var second := Chain(H, height + |x|, first.value.0, y[..k]);
        if second.Some? {
          var last := BlockReceipts(H, y[k], height + |x| + |y|, second.value.0);
          if last.Some? {
            assert first.value.1 + second.value.1 + last.value.1 == first.value.1 + (second.value.1 + last.value.1);
          }
        }
      }
    }
  }

  lemma {:induction false} ReceiptsConcat(a: seq<Receipt>, b: seq<Receipt>)
    ensures SuccessLogs(a + b) == SuccessLogs(a) + SuccessLogs(b)
    ensures LogCount(a + b) == LogCount(a) + LogCount(b)
    ensures FailedCount(a + b) == FailedCount(a) + FailedCount(b)
  {
    if b == [] {
      assert a + b == a;
    } else {
      var k := |b| - 1;
      ReceiptsConcat(a, b[..k]);
      assert (a + b)[..|a + b| - 1] == a + b[..k];
    }
  }

  /** The entrant-wise sum of two totals. */
  function AddTotals(a: FullTotals, b: FullTotals): FullTotals {
    Totals(seq(8, i requires 0 <= i < 8 => WordOf(WordValue(a.volumes[i]) + WordValue(b.volumes[i]))),
           seq(8, i requires 0 <= i < 8 => WordOf(WordValue(a.counts[i]) + WordValue(b.counts[i]))))
  }

  predicate TotalsFit(a: FullTotals, b: FullTotals) {
    forall i :: 0 <= i < 8 ==> SlotsFit(a, b, i)
  }

  predicate SlotsFit(a: FullTotals, b: FullTotals, i: nat)
    requires i < 8
  {
    && WordValue(a.volumes[i]) + WordValue(b.volumes[i]) < Limit256()
    && WordValue(a.counts[i]) + WordValue(b.counts[i]) < Limit256()
  }

  function AddDiagnostics(a: Diagnostics, b: Diagnostics): Diagnostics {
    Diagnostics(a.blocks + b.blocks, a.receipts + b.receipts, a.failedReceipts + b.failedReceipts, a.logs + b.logs)
  }

  predicate DiagnosticsFit(a: Diagnostics, b: Diagnostics) {
    var sum := AddDiagnostics(a, b);
    sum.receipts < U64_LIMIT && sum.failedReceipts < U64_LIMIT && sum.logs < U64_LIMIT
  }

  /** Two ranges that meet, over the same terms, mask and beneficiary. */
  predicate Adjacent(c: Context, d: Context) {
    && c.terms == d.terms && c.coverageMask == d.coverageMask && c.beneficiary == d.beneficiary
    && c.toInclusive == d.fromExclusive && c.endHash == d.beforeHash
  }

  function Joined(c: Context, d: Context): Context {
    Context(c.terms, c.beneficiary, c.coverageMask, c.fromExclusive, d.toInclusive, c.beforeHash, d.endHash)
  }

  lemma SumsAdd(t: Terms, mask: byte, a: seq<Log>, b: seq<Log>, x: FullTotals, y: FullTotals)
    requires Countable(t)
    requires Sums(t, mask, ZeroTotals(), a, x) && Sums(t, mask, ZeroTotals(), b, y)
    ensures SumsFit(t, mask, ZeroTotals(), a + b) <==> TotalsFit(x, y)
    ensures forall z: FullTotals :: TotalsFit(x, y) && Sums(t, mask, ZeroTotals(), a + b, z) ==> z == AddTotals(x, y)
  {
    hide WordValue;
    hide VolumeSum;
    hide CountSum;
    hide Limit256;
    hide WordOf;
    hide ZeroTotals;
    forall i | 0 <= i < 8
      ensures SlotFits(t, mask, ZeroTotals(), a + b, i) <==> SlotsFit(x, y, i)
      ensures VolumeSum(t, mask, a + b, i) == WordValue(x.volumes[i]) + WordValue(y.volumes[i])
      ensures CountSum(t, mask, a + b, i) == WordValue(x.counts[i]) + WordValue(y.counts[i])
    {
      assert SlotSum(t, mask, ZeroTotals(), a, x, i) && SlotSum(t, mask, ZeroTotals(), b, y, i);
      SumsConcat(t, mask, a, b, i);
      ZeroStart(i);
    }
    forall z: FullTotals | TotalsFit(x, y) && Sums(t, mask, ZeroTotals(), a + b, z) ensures z == AddTotals(x, y) {
      forall i | 0 <= i < 8
        ensures z.volumes[i] == AddTotals(x, y).volumes[i] && z.counts[i] == AddTotals(x, y).counts[i]
      {
        assert SlotSum(t, mask, ZeroTotals(), a + b, z, i) && SlotsFit(x, y, i);
        ZeroStart(i);
        WordOfValue(z.volumes[i]);
        WordOfValue(z.counts[i]);
      }
    }
  }

  lemma FormedConcat(t: Terms, a: seq<Log>, b: seq<Log>)
    requires Countable(t) && WellFormedLogs(t, a) && WellFormedLogs(t, b)
    ensures WellFormedLogs(t, a + b)
  {
  }

  /** Tiling on the blocks of two contexts. */
  lemma BlocksTiling(H: Keccak, c: Context, d: Context, a: seq<Bytes>, b: seq<Bytes>)
    returns (x: FullTotals, y: FullTotals)
    requires ValidContext(H, c) && ValidContext(H, d) && Adjacent(c, d)
    requires EvaluateBlocks(H, c, a).Some? && EvaluateBlocks(H, d, b).Some?
    ensures EvaluateBlocks(H, c, a).value.journal == JournalBytes(Journal(HeadFor(H, c), x))
    ensures EvaluateBlocks(H, d, b).value.journal == JournalBytes(Journal(HeadFor(H, d), y))
    ensures ValidContext(H, Joined(c, d))
    ensures var first, second := EvaluateBlocks(H, c, a).value, EvaluateBlocks(H, d, b).value;
            EvaluateBlocks(H, Joined(c, d), a + b) ==
            if TotalsFit(x, y) && DiagnosticsFit(first.diagnostics, second.diagnostics) then
              Some(Outcome(JournalBytes(Journal(HeadFor(H, Joined(c, d)), AddTotals(x, y))),
                           AddDiagnostics(first.diagnostics, second.diagnostics)))
            else None
  {
    hide ValidContext;
    hide Chain;
    hide EvaluateBlocks;
    hide Yields;
    hide TotalsFit;
    hide AddTotals;
    hide JournalBytes;
    hide HeadFor;
    hide AddDiagnostics;
    hide DiagnosticsFit;
    hide AllEncodable;
    hide Countable;
    JoinedValid(H, c, d);
    var middle, end, rx, ry, z;
    x, y, z, middle, end, rx, ry := JoinedRun(H, c, d, a, b);
    YieldsJoin(H, c, d, a, b, middle, end, rx, ry, x, y, z, EvaluateBlocks(H, c, a), EvaluateBlocks(H, d, b),
               EvaluateBlocks(H, Joined(c, d), a + b));
  }

  /** Runs over adjacent ranges concatenate: the run with the joined context frame and the blocks of both
      is accepted exactly when no sum and no counter overflows, and its totals and counters are the sums
      of those of the parts. */
  lemma RangeTiling(H: Keccak, p: seq<Bytes>, q: seq<Bytes>) returns (x: FullTotals, y: FullTotals)
    requires Evaluate(H, p).Some? && Evaluate(H, q).Some?
    requires Adjacent(ContextOf(H, p[0]).value, ContextOf(H, q[0]).value)
    ensures var c, d, first, second :=
              ContextOf(H, p[0]).value, ContextOf(H, q[0]).value, Evaluate(H, p).value, Evaluate(H, q).value;
            && ValidContext(H, c) && ValidContext(H, d) && ValidContext(H, Joined(c, d))
            && first.journal == JournalBytes(Journal(HeadFor(H, c), x))
            && second.journal == JournalBytes(Journal(HeadFor(H, d), y))
            && Evaluate(H, [ContextBytes(Joined(c, d))] + (p[1..] + q[1..])) ==
               if TotalsFit(x, y) && DiagnosticsFit(first.diagnostics, second.diagnostics) then
                 Some(Outcome(JournalBytes(Journal(HeadFor(H, Joined(c, d)), AddTotals(x, y))),
                              AddDiagnostics(first.diagnostics, second.diagnostics)))
               else None
  {
    hide ContextOf;
    hide EvaluateBlocks;
    hide ValidContext;
    hide JournalBytes;
    hide HeadFor;
    hide ContextBytes;
    hide TotalsFit;
    hide AddTotals;
    hide AddDiagnostics;
    hide DiagnosticsFit;
    var c, d := ContextOf(H, p[0]).value, ContextOf(H, q[0]).value;
    x, y := BlocksTiling(H, c, d, p[1..], q[1..]);
    EvaluatedFrames(H, Joined(c, d), p[1..] + q[1..]);
  }

  /** The three runs of a tiling, each as sums over its own chain. */
  lemma JoinedRun(H: Keccak, c: Context, d: Context, a: seq<Bytes>, b: seq<Bytes>)
    returns (x: FullTotals, y: FullTotals, z: FullTotals, middle: Hash, end: Hash, rx: seq<Receipt>, ry: seq<Receipt>)
    requires ValidContext(H, c) && ValidContext(H, d) && ValidContext(H, Joined(c, d)) && Adjacent(c, d)
    requires EvaluateBlocks(H, c, a).Some? && EvaluateBlocks(H, d, b).Some?
    ensures Countable(c.terms) && AllEncodable(c.terms.venues)
    ensures Yields(H, c, a, middle, rx, x, EvaluateBlocks(H, c, a))
    ensures Yields(H, d, b, end, ry, y, EvaluateBlocks(H, d, b))
    ensures Yields(H, Joined(c, d), a + b, end, rx + ry, z, EvaluateBlocks(H, Joined(c, d), a + b))
  {
    hide ValidContext;
    hide Chain;
    hide EvaluateBlocks;
    hide Yields;
    hide AllEncodable;
    hide Countable;
    middle, end, rx, ry := JoinedChain(H, c, d, a, b);
    x := EvaluatedTotals(H, c, a, middle, rx);
    y := EvaluatedTotals(H, d, b, end, ry);
    z := EvaluatedTotals(H, Joined(c, d), a + b, end, rx + ry);
  }

  lemma JoinedChain(H: Keccak, c: Context, d: Context, a: seq<Bytes>, b: seq<Bytes>)
    returns (middle: Hash, end: Hash, rx: seq<Receipt>, ry: seq<Receipt>)
    requires ValidContext(H, c) && ValidContext(H, d) && Adjacent(c, d)
    requires EvaluateBlocks(H, c, a).Some? && EvaluateBlocks(H, d, b).Some?
    ensures Chain(H, c.fromExclusive, c.beforeHash, a) == Some((middle, rx))
    ensures Chain(H, d.fromExclusive, d.beforeHash, b) == Some((end, ry))
    ensures Chain(H, c.fromExclusive, c.beforeHash, a + b) == Some((end, rx + ry))
  {
    hide ValidContext;
    hide Chain;
    hide EvaluateBlocks;
    middle, rx := EvaluatedChain(H, c, a);
    end, ry := EvaluatedChain(H, d, b);
    ChainConcat(H, c.fromExclusive, c.beforeHash, a, b);
  }

  /** What the two parts yield, added up, is what the joined run yields. */
  lemma YieldsJoin(
      H: Keccak, c: Context, d: Context, a: seq<Bytes>, b: seq<Bytes>, middle: Hash, end: Hash,
      rx: seq<Receipt>, ry: seq<Receipt>, x: FullTotals, y: FullTotals, z: FullTotals,
      first: Option<Outcome>, second: Option<Outcome>, whole: Option<Outcome>)
    requires Countable(c.terms) && AllEncodable(c.terms.venues) && Adjacent(c, d)
    requires Yields(H, c, a, middle, rx, x, first) && Yields(H, d, b, end, ry, y, second)
    requires Yields(H, Joined(c, d), a + b, end, rx + ry, z, whole)
    requires first.Some? && second.Some?
    ensures first.value.journal == JournalBytes(Journal(HeadFor(H, c), x))
    ensures second.value.journal == JournalBytes(Journal(HeadFor(H, d), y))
    ensures whole ==
            if TotalsFit(x, y) && DiagnosticsFit(first.value.diagnostics, second.value.diagnostics) then
              Some(Outcome(JournalBytes(Journal(HeadFor(H, Joined(c, d)), AddTotals(x, y))),
                           AddDiagnostics(first.value.diagnostics, second.value.diagnostics)))
            else None
  {
    hide SuccessLogs;
    hide LogCount;
    hide FailedCount;
    hide JournalBytes;
    hide HeadFor;
    hide Sums;
    hide SumsFit;
    hide WellFormedLogs;
    hide TotalsFit;
    hide AddTotals;
    ReceiptsConcat(rx, ry);
    FormedConcat(c.terms, SuccessLogs(rx), SuccessLogs(ry));
    SumsAdd(c.terms, c.coverageMask, SuccessLogs(rx), SuccessLogs(ry), x, y);
  }

  lemma JoinedValid(H: Keccak, c: Context, d: Context)
    requires ValidContext(H, c) && ValidContext(H, d) && Adjacent(c, d)
    ensures ValidContext(H, Joined(c, d))
  {
    hide ValidTerms;
    hide TermsHash;
    hide ValidateMask;
  }
}
