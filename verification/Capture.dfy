/** From captured blocks to an accepted run: what the TypeScript side frames, the chunk relation accepts
    with the exact sums of the captured logs. */
module Capture {
  import opened Prelude
  import opened Uint
  import opened Tries
  import opened LookupProof
  import opened ReceiptKeys
  import opened HashOrder
  import opened BuiltTries
  import opened ReceiptWalk
  import opened VisitReceipts
  import opened ReceiptsTries
  import opened VolumeTerms
  import opened Journals
  import opened Volume
  import opened VolumeSums
  import opened Receipts
  import opened Headers
  import opened Framing
  import opened Contexts
  import opened Chunks
  import opened ChunkTheorems
  import B = BlockReceipts

  /** A header with the block's receipts in transaction order. */
  datatype CapturedBlock = CapturedBlock(header: Header, receipts: seq<B.BlockReceipt>)

  /** What the encoder requires of each receipt. */
  predicate Encodable(receipts: seq<B.BlockReceipt>) {
    forall i :: 0 <= i < |receipts| ==> B.EncodableReceipt(receipts[i])
  }

  /** And what the capture checks. */
  predicate Accepted(receipts: seq<B.BlockReceipt>) {
    Encodable(receipts) && forall i :: 0 <= i < |receipts| ==> B.GuestCompatible(receipts[i])
  }

  function ValuesOf(receipts: seq<B.BlockReceipt>): (values: seq<Bytes>)
    requires Encodable(receipts)
    ensures |values| == |receipts|
  {
    seq(|receipts|, i requires 0 <= i < |receipts| => B.Encode(receipts[i]).value)
  }

  function GuestReceipts(receipts: seq<B.BlockReceipt>): (rs: seq<Receipt>)
    requires Accepted(receipts)
    ensures |rs| == |receipts|
  {
    seq(|receipts|, i requires 0 <= i < |receipts| => B.GuestReceipt(receipts[i]))
  }

  /** The receipts root the capture recomputes. */
  function RootOf(H: Keccak, values: seq<Bytes>): Hash
    requires |values| < U64_LIMIT
  {
    if values == [] then EmptyRoot(H) else RootHash(H, TrieOf(Indexed(values)))
  }

  /** The corpus of a block: nothing without receipts, else every hashed node in hash order. */
  ghost predicate IsCorpus(H: Keccak, values: seq<Bytes>, nodes: seq<Bytes>)
    requires |values| < U64_LIMIT
  {
    if values == [] then nodes == []
    else HashAscending(H, nodes) && Elements(nodes) == HashedNodes(H, TrieOf(Indexed(values)))
  }

  /** Whether the strings hashed for a block are free of collisions. */
  ghost predicate CollisionFree(H: Keccak, values: seq<Bytes>)
    requires |values| < U64_LIMIT
  {
    values != [] ==> !Collides(H, Corpus(H, TrieOf(Indexed(values))) + {[0x80]})
  }

  /** A frame captured for a block. */
  ghost predicate IsCapture(H: Keccak, block: CapturedBlock, frame: Bytes) {
    && Accepted(block.receipts) && |block.receipts| < U64_LIMIT
    && block.header.receiptsRoot == RootOf(H, ValuesOf(block.receipts))
    && exists nodes ::
         && IsCorpus(H, ValuesOf(block.receipts), nodes)
         && Framable(EncodeHeader(block.header), nodes)
         && frame == FrameBytes(EncodeHeader(block.header), nodes)
  }

  // ----- capturing -----

  /** Checks every receipt, rebuilds the root, and frames header and corpus. Without collisions it
      produces the one frame there is for a block with the right root, and fails if there is none. */
  method CaptureBlock(H: Keccak, block: CapturedBlock) returns (r: Option<Bytes>)
    requires |block.receipts| < U64_LIMIT
    ensures r.Some? ==> Accepted(block.receipts)
    ensures Accepted(block.receipts) && CollisionFree(H, ValuesOf(block.receipts)) ==>
              forall frame :: IsCapture(H, block, frame) <==> r == Some(frame)
  {
    hide B.EncodableReceipt;
    hide B.GuestCompatible;
    hide B.Encode;
    hide EncodeHeader;
    hide TrieOf;
    hide HashedNodes;
    hide HashAscending;
    hide FrameBytes;
    hide Framable;
    if !Accepted(block.receipts) {
      return None;
    }
    var values := ValuesOf(block.receipts);
    if block.header.receiptsRoot != RootOf(H, values) {
      return None;
    }
    var nodes := ListCorpus(H, values);
    CorpusFramed(H, block, values, nodes);
    AscendingIsDistinct(H, nodes);
    var framed := EncodeBlock(H, EncodeHeader(block.header), nodes);
    r := if framed.Ok? then Some(framed.value) else None;
  }

  /** The hashed nodes of the block's trie; none without receipts. */
  method ListCorpus(H: Keccak, values: seq<Bytes>) returns (nodes: seq<Bytes>)
    requires |values| < U64_LIMIT
    ensures HashAscending(H, nodes)
    ensures CollisionFree(H, values) ==> IsCorpus(H, values, nodes)
  {
    hide TrieOf;
    hide HashedNodes;
    hide HashAscending;
    nodes := [];
    NothingAscends(H);
    if values != [] {
      var trie := NewReceiptsTrie(Indexed(values));
      if trie.Some? {
        nodes := HashedNodeList(H, trie.value.root);
        FreeOfCollisions(H, values);
      }
    }
  }

  lemma FreeOfCollisions(H: Keccak, values: seq<Bytes>)
    requires values != [] && |values| < U64_LIMIT
    ensures CollisionFree(H, values) ==> !Collides(H, HashedNodes(H, TrieOf(Indexed(values))))
  {
    hide TrieOf;
    var t := TrieOf(Indexed(values));
    if CollisionFree(H, values) {
      FewerCollide(H, HashedNodes(H, t), Corpus(H, t) + {[0x80]});
    }
  }

  /** Only one frame can be a capture: the sorted corpus is unique. */
  lemma CorpusFramed(H: Keccak, block: CapturedBlock, values: seq<Bytes>, nodes: seq<Bytes>)
    requires Accepted(block.receipts) && |block.receipts| < U64_LIMIT && values == ValuesOf(block.receipts)
    requires block.header.receiptsRoot == RootOf(H, values)
    requires HashAscending(H, nodes) && (CollisionFree(H, values) ==> IsCorpus(H, values, nodes))
    ensures CollisionFree(H, values) ==> forall frame ::
              IsCapture(H, block, frame) <==>
              Framable(EncodeHeader(block.header), nodes)
              && frame == FrameBytes(EncodeHeader(block.header), SortByHash(H, nodes))
  {
    hide EncodeHeader;
    hide TrieOf;
    hide FrameBytes;
    hide Framable;
    SortedStays(H, nodes);
    if CollisionFree(H, values) {
      forall other | IsCorpus(H, values, other) ensures other == nodes {
        OneCorpus(H, values, nodes, other);
      }
    }
  }

  lemma OneCorpus(H: Keccak, values: seq<Bytes>, a: seq<Bytes>, b: seq<Bytes>)
    requires |values| < U64_LIMIT && IsCorpus(H, values, a) && IsCorpus(H, values, b)
    ensures a == b
  {
    hide TrieOf;
    if values != [] {
      AscendingUnique(H, a, b);
    }
  }

  // ----- receipts and the walker -----

  /** Encoded receipts are never short, so what the builder makes of any of them the walker accepts as
      exactly these values. */
  lemma EncodedReceiptsAgree(H: Keccak, receipts: seq<B.BlockReceipt>, nodes: seq<Bytes>)
    requires 0 < |receipts| < U64_LIMIT && Encodable(receipts)
    requires forall i :: 0 <= i < |receipts| ==> |ValuesOf(receipts)[i]| < SMALL
    requires CollisionFree(H, ValuesOf(receipts)) && IsCorpus(H, ValuesOf(receipts), nodes)
    ensures CompleteReceipts(H, RootHash(H, TrieOf(Indexed(ValuesOf(receipts)))), nodes) == Some(ValuesOf(receipts))
  {
    hide TrieOf;
    hide B.Encode;
    hide B.EncodableReceipt;
    forall i | 0 <= i < |receipts| ensures |ValuesOf(receipts)[i]| >= 256 {
      B.EncodedLength(receipts[i]);
    }
    CorpusComplete(H, ValuesOf(receipts), nodes);
  }

  // ----- one captured block is accepted -----

  /** Nothing but log topics stands between a captured block and the strict decoder. */
  ghost predicate Readable(H: Keccak, block: CapturedBlock) {
    && ValidHeader(block.header) && |EncodeHeader(block.header)| < U64_LIMIT
    && Accepted(block.receipts) && |block.receipts| < U64_LIMIT
    && (forall i :: 0 <= i < |block.receipts| ==>
          B.FewTopics(block.receipts[i]) && |ValuesOf(block.receipts)[i]| < SMALL)
    && CollisionFree(H, ValuesOf(block.receipts))
  }

  /** The receipts of a block in the order the traversal visits them. */
  function Visited(receipts: seq<Receipt>): (visited: seq<Receipt>)
    ensures |visited| == |receipts|
  {
    VisitOrderIsSorted(|receipts|);
    seq(|receipts|, k requires 0 <= k < |receipts| => receipts[VisitAt(|receipts|, k)])
  }

  lemma ValueDecodes(r: B.BlockReceipt)
    requires B.EncodableReceipt(r) && B.GuestCompatible(r) && B.FewTopics(r)
    requires B.Encode(r).Some? && |B.Encode(r).value| < SMALL
    ensures DecodeReceipt(B.Encode(r).value) == Some(B.GuestReceipt(r))
    ensures |B.Encode(r).value| >= 256
  {
    hide DecodeReceipt;
    B.EncodedLength(r);
    B.CodecsAgree(r);
  }

  lemma {:induction false} VisitsDecode(visits: seq<Visit>, receipts: seq<Receipt>)
    requires |visits| == |receipts|
    requires forall k :: 0 <= k < |visits| ==> DecodeReceipt(visits[k].value) == Some(receipts[k])
    ensures ReceiptsOf(visits) == Some(receipts)
  {
    hide DecodeReceipt;
    if visits != [] {
      var k := |visits| - 1;
      VisitsDecode(visits[..k], receipts[..k]);
      assert receipts == receipts[..k] + [receipts[k]];
    }
  }

  lemma BlockDecodes(H: Keccak, block: CapturedBlock)
    requires Readable(H, block)
    ensures ReceiptsOf(ReceiptVisits(ValuesOf(block.receipts))) == Some(Visited(GuestReceipts(block.receipts)))
    ensures forall i :: 0 <= i < |block.receipts| ==> 256 <= |ValuesOf(block.receipts)[i]| < SMALL
  {
    hide DecodeReceipt;
    hide B.Encode;
    hide B.GuestReceipt;
    hide B.FewTopics;
    hide B.EncodableReceipt;
    hide B.GuestCompatible;
    hide CollisionFree;
    var values, receipts := ValuesOf(block.receipts), GuestReceipts(block.receipts);
    VisitOrderIsSorted(|values|);
    forall i | 0 <= i < |values|
      ensures DecodeReceipt(values[i]) == Some(receipts[i]) && |values[i]| >= 256
    {
      EncodeSome(block.receipts[i]);
      ValueDecodes(block.receipts[i]);
    }
    VisitsDecode(ReceiptVisits(values), Visited(receipts));
  }

  lemma EncodeSome(r: B.BlockReceipt)
    requires B.EncodableReceipt(r)
    ensures B.Encode(r).Some?
  {
  }

  lemma CorpusComplete(H: Keccak, values: seq<Bytes>, nodes: seq<Bytes>)
    requires |values| < U64_LIMIT && IsCorpus(H, values, nodes) && CollisionFree(H, values)
    requires forall i :: 0 <= i < |values| ==> 32 <= |values[i]| < SMALL
    ensures CompleteReceipts(H, RootOf(H, values), nodes) == Some(values)
    ensures HashAscending(H, nodes)
  {
    hide TrieOf;
    if values != [] {
      AscendingIsDistinct(H, nodes);
      LongReceiptsAgree(H, values, nodes);
    }
  }

  /** A captured frame establishes exactly its receipts, in visit order. */
  lemma CapturedBlockAccepted(H: Keccak, block: CapturedBlock, frame: Bytes)
    requires IsCapture(H, block, frame) && Readable(H, block)
    ensures BlockReceipts(H, frame, block.header.number, block.header.parentHash) ==
            Some((H(EncodeHeader(block.header)), Visited(GuestReceipts(block.receipts))))
  {
    var values, encoded := ValuesOf(block.receipts), EncodeHeader(block.header);
    BlockDecodes(H, block);
    var nodes :| IsCorpus(H, values, nodes) && Framable(encoded, nodes) && frame == FrameBytes(encoded, nodes);
    CorpusComplete(H, values, nodes);
    FrameCanonical(H, frame, encoded, nodes);
    HeaderCanonical(encoded, block.header);
    hide BlockOf;
    hide ParseHeader;
    hide CompleteReceipts;
    hide ReceiptsOf;
    hide ReceiptVisits;
    hide Visited;
    hide GuestReceipts;
    hide Readable;
    hide FrameBytes;
    hide Framable;
    hide IsCorpus;
  }

  /** A captured block without receipts has the empty root and frames no node. */
  lemma EmptyCapture(H: Keccak, block: CapturedBlock, frame: Bytes)
    requires block.receipts == []
    ensures IsCapture(H, block, frame) <==>
            && block.header.receiptsRoot == EmptyRoot(H) && |EncodeHeader(block.header)| < U64_LIMIT
            && BlockOf(H, frame) == Some((EncodeHeader(block.header), []))
  {
    hide EncodeHeader;
    hide BlockOf;
    hide FrameBytes;
    var header := EncodeHeader(block.header);
    FrameCanonical(H, frame, header, []);
    NothingAscends(H);
    if IsCapture(H, block, frame) {
      var nodes :| IsCorpus(H, ValuesOf(block.receipts), nodes) && Framable(header, nodes) && frame == FrameBytes(header, nodes);
    } else {
      assert IsCorpus(H, ValuesOf(block.receipts), []);
    }
  }

  // ----- the order of visits does not matter -----

  /** The visit order takes 0 from the front and puts it after at most 127 others. */
  lemma VisitedSplit(receipts: seq<Receipt>)
    requires receipts != []
    ensures var m := if |receipts| <= 128 then |receipts| else 128;
            Visited(receipts) == receipts[1..m] + [receipts[0]] + receipts[m..]
  {
    VisitOrderIsSorted(|receipts|);
  }

  lemma VisitedPermutes(receipts: seq<Receipt>)
    ensures multiset(SuccessLogs(Visited(receipts))) == multiset(SuccessLogs(receipts))
    ensures LogCount(Visited(receipts)) == LogCount(receipts)
    ensures FailedCount(Visited(receipts)) == FailedCount(receipts)
  {
    if receipts == [] {
      assert Visited(receipts) == receipts;
    } else {
      VisitedSplit(receipts);
      var m := if |receipts| <= 128 then |receipts| else 128;
      var zero, front, rest := [receipts[0]], receipts[1..m], receipts[m..];
      assert receipts == zero + front + rest;
      hide SuccessLogs;
      hide LogCount;
      hide FailedCount;
      ReceiptsConcat(front + zero, rest);
      ReceiptsConcat(front, zero);
      ReceiptsConcat(zero + front, rest);
      ReceiptsConcat(zero, front);
    }
  }

  // ----- a captured chain -----

  /** Captured blocks with their frames, linked by number and parent hash above a height. */
  ghost predicate CapturedChain(
    H: Keccak, height: nat, parent: Hash, blocks: seq<CapturedBlock>, frames: seq<Bytes>)
  {
    |blocks| == |frames| && forall i :: 0 <= i < |blocks| ==> Linked(H, height, parent, blocks, frames[i], i)
  }

  ghost predicate Linked(
    H: Keccak, height: nat, parent: Hash, blocks: seq<CapturedBlock>, frame: Bytes, i: nat)
    requires i < |blocks|
  {
    && IsCapture(H, blocks[i], frame) && Readable(H, blocks[i])
    && blocks[i].header.number == height + i + 1
    && blocks[i].header.parentHash == TipOf(H, parent, blocks[..i])
  }

  /** All receipts of a chain in block and transaction order. */
  function AllReceipts(blocks: seq<CapturedBlock>): seq<Receipt>
    requires forall i :: 0 <= i < |blocks| ==> Accepted(blocks[i].receipts)
  {
    if blocks == [] then []
    else AllReceipts(blocks[..|blocks| - 1]) + GuestReceipts(blocks[|blocks| - 1].receipts)
  }

  function TipOf(H: Keccak, parent: Hash, blocks: seq<CapturedBlock>): Hash {
    if blocks == [] then parent else H(EncodeHeader(blocks[|blocks| - 1].header))
  }

  /** Two receipt lists that count the same: the same contributing logs in some order, and the same
      counters. */
  ghost predicate SameCount(a: seq<Receipt>, b: seq<Receipt>) {
    multiset(SuccessLogs(a)) == multiset(SuccessLogs(b)) && LogCount(a) == LogCount(b)
    && FailedCount(a) == FailedCount(b) && |a| == |b|
  }

  lemma SameCountConcat(a: seq<Receipt>, b: seq<Receipt>, c: seq<Receipt>, d: seq<Receipt>)
    requires SameCount(a, b) && SameCount(c, d)
    ensures SameCount(a + c, b + d)
  {
    hide SuccessLogs;
    hide LogCount;
    hide FailedCount;
    ReceiptsConcat(a, c);
    ReceiptsConcat(b, d);
  }

  lemma {:induction false} CapturedChainAccepted(
      H: Keccak, height: nat, parent: Hash, blocks: seq<CapturedBlock>, frames: seq<Bytes>)
    returns (visited: seq<Receipt>)
    requires CapturedChain(H, height, parent, blocks, frames)
    ensures forall i :: 0 <= i < |blocks| ==> Accepted(blocks[i].receipts)
    ensures Chain(H, height, parent, frames) == Some((TipOf(H, parent, blocks), visited))
    ensures SameCount(visited, AllReceipts(blocks))
  {
    ChainIsAccepted(H, height, parent, blocks, frames);
    if blocks == [] {
      visited := [];
    } else {
      hide SuccessLogs;
      hide LogCount;
      hide FailedCount;
      hide BlockReceipts;
      hide GuestReceipts;
      hide Visited;
      var k := |blocks| - 1;
      LastCaptured(H, height, parent, blocks, frames);
      hide CapturedChain;
      var front := CapturedChainAccepted(H, height, parent, blocks[..k], frames[..k]);
      var guests := GuestReceipts(blocks[k].receipts);
      VisitedPermutes(guests);
      visited := front + Visited(guests);
      SameCountConcat(front, AllReceipts(blocks[..k]), Visited(guests), guests);
      hide SameCount;
    }
  }

  /** The last block of a chain on top of the others. */
  lemma LastCaptured(H: Keccak, height: nat, parent: Hash, blocks: seq<CapturedBlock>, frames: seq<Bytes>)
    requires CapturedChain(H, height, parent, blocks, frames) && blocks != []
    ensures var k := |blocks| - 1;
            && CapturedChain(H, height, parent, blocks[..k], frames[..k])
            && Accepted(blocks[k].receipts)
            && BlockReceipts(H, frames[k], height + |frames|, TipOf(H, parent, blocks[..k])) ==
               Some((TipOf(H, parent, blocks), Visited(GuestReceipts(blocks[k].receipts))))
  {
    hide BlockReceipts;
    hide GuestReceipts;
    hide Visited;
    hide EncodeHeader;
    hide CapturedChain;
    hide IsCapture;
    hide Readable;
    hide Accepted;
    var k := |blocks| - 1;
    LastLength(H, height, parent, blocks, frames);
    LinkedCapture(H, height, parent, blocks, frames, k);
    CapturedBlockAccepted(H, blocks[k], frames[k]);
  }

  lemma LastLength(H: Keccak, height: nat, parent: Hash, blocks: seq<CapturedBlock>, frames: seq<Bytes>)
    requires CapturedChain(H, height, parent, blocks, frames)
    ensures |blocks| == |frames|
  {
  }

  lemma LinkedCapture(H: Keccak, height: nat, parent: Hash, blocks: seq<CapturedBlock>, frames: seq<Bytes>, k: nat)
    requires CapturedChain(H, height, parent, blocks, frames) && k < |blocks|
    ensures CapturedChain(H, height, parent, blocks[..k], frames[..k])
    ensures IsCapture(H, blocks[k], frames[k]) && Readable(H, blocks[k]) && Accepted(blocks[k].receipts)
    ensures blocks[k].header.number == height + k + 1
    ensures blocks[k].header.parentHash == TipOf(H, parent, blocks[..k])
  {
    assert Linked(H, height, parent, blocks, frames[k], k);
    ReadableAccepted(H, blocks[k]);
    hide IsCapture;
    hide Readable;
    hide TipOf;
    forall i | 0 <= i < k ensures Linked(H, height, parent, blocks[..k], frames[..k][i], i) {
      assert Linked(H, height, parent, blocks, frames[i], i);
      assert blocks[..k][..i] == blocks[..i];
    }
  }

  lemma ReadableAccepted(H: Keccak, block: CapturedBlock)
    requires Readable(H, block)
    ensures Accepted(block.receipts)
  {
  }

  lemma ChainIsAccepted(H: Keccak, height: nat, parent: Hash, blocks: seq<CapturedBlock>, frames: seq<Bytes>)
    requires CapturedChain(H, height, parent, blocks, frames)
    ensures forall i :: 0 <= i < |blocks| ==> Accepted(blocks[i].receipts)
  {
    forall i | 0 <= i < |blocks| ensures Accepted(blocks[i].receipts) {
      assert Linked(H, height, parent, blocks, frames[i], i);
    }
  }

  /** A run over captured frames is accepted exactly when no log of a pinned pool is malformed and
      nothing overflows; its journal carries the exact sums over the captured logs of successful
      receipts. */
  lemma CapturedRun(H: Keccak, c: Context, blocks: seq<CapturedBlock>, frames: seq<Bytes>)
    returns (totals: FullTotals)
    requires ValidContext(H, c) && CapturedChain(H, c.fromExclusive, c.beforeHash, blocks, frames)
    requires |blocks| == c.toInclusive - c.fromExclusive && TipOf(H, c.beforeHash, blocks) == c.endHash
    ensures forall i :: 0 <= i < |blocks| ==> Accepted(blocks[i].receipts)
    ensures Countable(c.terms) && AllEncodable(c.terms.venues)
    ensures Yields(H, c, frames, c.endHash, AllReceipts(blocks), totals, EvaluateBlocks(H, c, frames))
    ensures Evaluate(H, [ContextBytes(c)] + frames) == EvaluateBlocks(H, c, frames)
  {
    var visited := CapturedChainAccepted(H, c.fromExclusive, c.beforeHash, blocks, frames);
    totals := EvaluatedTotals(H, c, frames, c.endHash, visited);
    YieldsReordered(H, c, frames, c.endHash, visited, AllReceipts(blocks), totals, EvaluateBlocks(H, c, frames));
    EvaluatedFrames(H, c, frames);
  }

  /** Soundness end to end: any accepted run that ends at the tip of a captured chain has the outcome of
      the captured frames, whatever its own frames are, or two of the strings collide. */
  lemma CapturedOutcome(
      H: Keccak, c: Context, blocks: seq<CapturedBlock>, frames: seq<Bytes>, other: seq<Bytes>)
    requires ValidContext(H, c) && CapturedChain(H, c.fromExclusive, c.beforeHash, blocks, frames)
    requires |blocks| == c.toInclusive - c.fromExclusive && TipOf(H, c.beforeHash, blocks) == c.endHash
    requires Evaluate(H, [ContextBytes(c)] + other).Some?
    ensures Evaluate(H, [ContextBytes(c)] + other) == Evaluate(H, [ContextBytes(c)] + frames)
            || Collides(H, RunStrings(H, other) + RunStrings(H, frames))
  {
    EvaluatedFrames(H, c, other);
    EvaluatedFrames(H, c, frames);
    var visited := CapturedChainAccepted(H, c.fromExclusive, c.beforeHash, blocks, frames);
    var end, receipts := EvaluatedChain(H, c, other);
    hide *;
    if !Collides(H, RunStrings(H, other) + RunStrings(H, frames)) {
      ChainBound(H, c.fromExclusive, c.beforeHash, c.beforeHash, other, frames);
      SameChain(H, c, other, frames);
    }
  }

  lemma SameChain(H: Keccak, c: Context, a: seq<Bytes>, b: seq<Bytes>)
    requires ValidContext(H, c) && |a| == |b|
    requires Chain(H, c.fromExclusive, c.beforeHash, a) == Chain(H, c.fromExclusive, c.beforeHash, b)
    ensures EvaluateBlocks(H, c, a) == EvaluateBlocks(H, c, b)
  {
    hide ValidContext;
    hide Chain;
    hide CountAll;
  }

  lemma YieldsReordered(
      H: Keccak, c: Context, frames: seq<Bytes>, end: Hash, a: seq<Receipt>, b: seq<Receipt>, totals: FullTotals,
      r: Option<Outcome>)
    requires Countable(c.terms) && AllEncodable(c.terms.venues) && SameCount(a, b)
    requires Yields(H, c, frames, end, a, totals, r)
    ensures Yields(H, c, frames, end, b, totals, r)
  {
    hide SuccessLogs;
    hide LogCount;
    hide FailedCount;
    hide JournalBytes;
    hide HeadFor;
    hide VolumeSum;
    hide CountSum;
    hide Qualify;
    hide WordValue;
    var x, y := SuccessLogs(a), SuccessLogs(b);
    FormedPermutation(c.terms, x, y);
    FormedPermutation(c.terms, y, x);
    forall i | 0 <= i < 8
      ensures VolumeSum(c.terms, c.coverageMask, x, i) == VolumeSum(c.terms, c.coverageMask, y, i)
      ensures CountSum(c.terms, c.coverageMask, x, i) == CountSum(c.terms, c.coverageMask, y, i)
    {
      SumsOfPermutation(c.terms, c.coverageMask, x, y, i);
    }
    hide WellFormedLogs;
    forall i | 0 <= i < 8
      ensures SlotFits(c.terms, c.coverageMask, ZeroTotals(), x, i) <==> SlotFits(c.terms, c.coverageMask, ZeroTotals(), y, i)
      ensures SlotSum(c.terms, c.coverageMask, ZeroTotals(), x, totals, i) <==>
              SlotSum(c.terms, c.coverageMask, ZeroTotals(), y, totals, i)
    {
    }
    assert SumsFit(c.terms, c.coverageMask, ZeroTotals(), x) <==> SumsFit(c.terms, c.coverageMask, ZeroTotals(), y);
    assert Sums(c.terms, c.coverageMask, ZeroTotals(), x, totals) <==> Sums(c.terms, c.coverageMask, ZeroTotals(), y, totals);
  }
}
