/** The chunk relation as a specification: what a sequence of frames establishes. */
module Chunks {
  import opened Prelude
  import opened AbiWords
  import opened VolumeTerms
  import opened Journals
  import opened Volume
  import opened VolumeSums
  import opened Receipts
  import opened Headers
  import opened Framing
  import opened Contexts
  import opened ReceiptWalk
  import opened VisitReceipts

  datatype ChunkError =
    | MissingContext | MissingBlock | TrailingFrame
    | BadFrame(framing: FramingError) | BadHeader(header: CoreError) | BadJournal(journal: CoreError)
    | NumberGap | ParentMismatch | EndMismatch
    | BadReceipt | BadLog(log: CoreError) | CounterOverflow
    | BadTrie(walk: WalkError<ChunkError>)

  datatype Diagnostics = Diagnostics(blocks: nat, receipts: nat, failedReceipts: nat, logs: nat)

  datatype Outcome = Outcome(journal: Bytes, diagnostics: Diagnostics)

  /** What the receipt callback accumulates. */
  datatype Tally = Tally(totals: FullTotals, logs: nat, failed: nat)

  function ZeroTally(): Tally {
    Tally(ZeroTotals(), 0, 0)
  }

  // ----- counting receipts -----

  /** Logs of failed receipts are counted but not recorded. */
  function CountReceipt(t: Terms, mask: byte, tally: Tally, receipt: Receipt): Result<Tally, ChunkError>
    requires Countable(t)
  {
    match RecordAll(t, mask, tally.totals, if receipt.success then receipt.logs else [])
    case Err(e) => Err(BadLog(e))
    case Ok(totals) =>
      var logs, failed := tally.logs + |receipt.logs|, tally.failed + if receipt.success then 0 else 1;
      if logs >= U64_LIMIT || failed >= U64_LIMIT then Err(CounterOverflow)
      else Ok(Tally(totals, logs, failed))
  }

  function CountAll(t: Terms, mask: byte, tally: Tally, receipts: seq<Receipt>): Result<Tally, ChunkError>
    requires Countable(t)
  {
    if receipts == [] then Ok(tally)
    else
      var front :- CountAll(t, mask, tally, receipts[..|receipts| - 1]);
      CountReceipt(t, mask, front, receipts[|receipts| - 1])
  }

  /** The logs that contribute: those of successful receipts, in order. */
  function SuccessLogs(receipts: seq<Receipt>): seq<Log> {
    if receipts == [] then []
    else
      var last := receipts[|receipts| - 1];
      SuccessLogs(receipts[..|receipts| - 1]) + if last.success then last.logs else []
  }

  function LogCount(receipts: seq<Receipt>): nat {
    if receipts == [] then 0
    else LogCount(receipts[..|receipts| - 1]) + |receipts[|receipts| - 1].logs|
  }

  function FailedCount(receipts: seq<Receipt>): nat {
    if receipts == [] then 0
    else FailedCount(receipts[..|receipts| - 1]) + if receipts[|receipts| - 1].success then 0 else 1
  }

  /** The running counters stay 64-bit numbers. */
  predicate CountersFit(tally: Tally, receipts: seq<Receipt>) {
    tally.logs + LogCount(receipts) < U64_LIMIT && tally.failed + FailedCount(receipts) < U64_LIMIT
  }

  predicate Counted(tally: Tally) {
    tally.logs < U64_LIMIT && tally.failed < U64_LIMIT
  }

  /** Counting receipts is recording their successful logs and adding up the counters. */
  lemma {:induction false} CountAllMeaning(t: Terms, mask: byte, tally: Tally, receipts: seq<Receipt>)
    requires Countable(t) && Counted(tally)
    ensures var totals := RecordAll(t, mask, tally.totals, SuccessLogs(receipts));
            var r := CountAll(t, mask, tally, receipts);
            && (r.Ok? <==> totals.Ok? && CountersFit(tally, receipts))
            && (r.Ok? ==> r.value == Tally(totals.value, tally.logs + LogCount(receipts), tally.failed + FailedCount(receipts)))
  {
    hide RecordAll;
    if receipts == [] {
      RecordNothing(t, mask, tally.totals);
    } else {
      var front, last := receipts[..|receipts| - 1], receipts[|receipts| - 1];
      CountAllMeaning(t, mask, tally, front);
      RecordConcat(t, mask, tally.totals, SuccessLogs(front), if last.success then last.logs else []);
    }
  }

  lemma RecordNothing(t: Terms, mask: byte, totals: FullTotals)
    requires Countable(t)
    ensures RecordAll(t, mask, totals, []) == Ok(totals)
  {
  }

  // ----- one block -----

  /** All visited values decoded, if every one is a canonical receipt. */
  function ReceiptsOf(visits: seq<Visit>): (r: Option<seq<Receipt>>)
    ensures r.Some? ==> |r.value| == |visits|
  {
    if visits == [] then Some([])
    else
      var front :- ReceiptsOf(visits[..|visits| - 1]);
      var last :- DecodeReceipt(visits[|visits| - 1].value);
      Some(front + [last])
  }

  /** The callback the receipt traversal is given. */
  function VisitReceipt(t: Terms, mask: byte, tally: Tally, encoded: Bytes): Result<Tally, ChunkError>
    requires Countable(t)
  {
    match DecodeReceipt(encoded)
    case None => Err(BadReceipt)
    case Some(receipt) => CountReceipt(t, mask, tally, receipt)
  }

  function Visitor(t: Terms, mask: byte): (Tally, nat, Bytes) -> Result<Tally, ChunkError>
    requires Countable(t)
  {
    (tally: Tally, index: nat, encoded: Bytes) => VisitReceipt(t, mask, tally, encoded)
  }

  /** Visiting values is decoding them all and counting them. */
  lemma {:induction false} VisitsCount(t: Terms, mask: byte, tally: Tally, visits: seq<Visit>)
    requires Countable(t)
    ensures var r := FoldVisits(Visitor(t, mask), tally, visits);
            match ReceiptsOf(visits)
            case None => r.Err?
            case Some(receipts) => r == CountAll(t, mask, tally, receipts)
  {
    hide DecodeReceipt;
    hide CountReceipt;
    if visits != [] {
      var front, last := visits[..|visits| - 1], visits[|visits| - 1];
      VisitsCount(t, mask, tally, front);
      if ReceiptsOf(front).Some? && DecodeReceipt(last.value).Some? {
        var receipts := ReceiptsOf(front).value + [DecodeReceipt(last.value).value];
        assert receipts[..|receipts| - 1] == ReceiptsOf(front).value;
      }
    }
  }

  /** The receipts a block frame establishes at a height on top of a parent, with the hash of the block. */
  ghost function BlockReceipts(H: Keccak, frame: Bytes, number: nat, parent: Hash): Option<(Hash, seq<Receipt>)> {
    var (encoded, nodes) :- BlockOf(H, frame);
    var header :- ParseHeader(encoded);
    if header.number != number || header.parentHash != parent then None
    else
      var values :- CompleteReceipts(H, header.receiptsRoot, nodes);
      var receipts :- ReceiptsOf(ReceiptVisits(values));
      Some((H(encoded), receipts))
  }

  /** The hash of the last block and all receipts of a chain of block frames above a height. */
  ghost function Chain(H: Keccak, height: nat, parent: Hash, frames: seq<Bytes>): Option<(Hash, seq<Receipt>)> {
    if frames == [] then Some((parent, []))
    else
      var (hash, receipts) :- Chain(H, height, parent, frames[..|frames| - 1]);
      var (next, more) :- BlockReceipts(H, frames[|frames| - 1], height + |frames|, hash);
      Some((next, receipts + more))
  }

  // ----- the whole run -----

  /** The journal fields a context fixes. */
  function HeadFor(H: Keccak, c: Context): Head
    requires c.terms.Sized() && AllEncodable(c.terms.venues)
  {
    Head(JournalDomain(H), TermsHash(H, c.terms), c.terms.services.proofSuiteHash, c.beneficiary,
         c.coverageMask, c.fromExclusive, c.toInclusive, c.beforeHash, c.endHash)
  }

  /** The checks on the context before any block. */
  ghost predicate ValidContext(H: Keccak, c: Context) {
    ValidTerms(H, c.terms) && AllEncodable(c.terms.venues) && ValidHead(H, HeadFor(H, c), c.terms)
  }

  ghost function Evaluate(H: Keccak, frames: seq<Bytes>): Option<Outcome> {
    if frames == [] then None
    else
      var c :- ContextOf(H, frames[0]);
      if !ValidContext(H, c) then None else EvaluateBlocks(H, c, frames[1..])
  }

  ghost function EvaluateBlocks(H: Keccak, c: Context, blocks: seq<Bytes>): Option<Outcome>
    requires ValidContext(H, c)
  {
    var (end, receipts) :- Chain(H, c.fromExclusive, c.beforeHash, blocks);
    var tally := CountAll(c.terms, c.coverageMask, ZeroTally(), receipts);
    if |blocks| != c.toInclusive - c.fromExclusive || end != c.endHash || tally.Err? || |receipts| >= U64_LIMIT
    then None
    else
      Some(Outcome(JournalBytes(Journal(HeadFor(H, c), tally.value.totals)),
                   Diagnostics(|blocks|, |receipts|, tally.value.failed, tally.value.logs)))
  }
}
