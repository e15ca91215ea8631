/** The chunk state machine: one context frame, then exactly the blocks of the range, then the end. */
module ChunkRun {
  import opened Prelude
  import opened AbiWords
  import opened VolumeTerms
  import opened Journals
  import opened Volume
  import opened Receipts
  import opened Headers
  import opened Framing
  import opened Contexts
  import opened ReceiptWalk
  import opened VisitReceipts
  import opened Chunks
  import opened ChunkTheorems
  import ReceiptReader

  /** The frames still to be pulled. */
  class FrameSource {
    var remaining: seq<Bytes>

    constructor (frames: seq<Bytes>)
      ensures remaining == frames
    {
      remaining := frames;
    }

    method Next() returns (r: Option<Bytes>)
      modifies this
      ensures old(remaining) == [] ==> r == None && remaining == []
      ensures old(remaining) != [] ==> r == Some(old(remaining)[0]) && remaining == old(remaining)[1..]
    {
      if remaining == [] {
        return None;
      }
      r := Some(remaining[0]);
      remaining := remaining[1..];
    }
  }

  // ----- the receipt callback -----

  /** What the log callback does: it records the logs of successful receipts only. */
  function LogVisitor(t: Terms, mask: byte): (FullTotals, bool, Log) -> Result<FullTotals, CoreError>
    requires Countable(t)
  {
    (totals: FullTotals, success: bool, log: Log) =>
      if success then
        match RecordLog(t, mask, totals, log)
        case Ok(next) => Ok(next)
        case Err(e) => Err(e)
      else Ok(totals)
  }

  lemma {:induction false} LogsRecorded(t: Terms, mask: byte, totals: FullTotals, success: bool, logs: seq<Log>)
    requires Countable(t)
    ensures var r := ReceiptReader.FoldLogs(LogVisitor(t, mask), totals, success, logs);
            match RecordAll(t, mask, totals, if success then logs else [])
            case Ok(next) => r == Ok(next)
            case Err(e) => r == Err(e)
  {
    hide RecordLog;
    if logs != [] {
      LogsRecorded(t, mask, totals, success, logs[..|logs| - 1]);
    }
  }

  /** The callback of the traversal, through the lazy log reader, is the specified visitor. */
  method CountVisited(t: Terms, mask: byte, tally: Tally, encoded: Bytes) returns (r: Result<Tally, ChunkError>)
    requires Countable(t)
    ensures VisitReceipt(t, mask, tally, encoded).Ok? <==> r.Ok?
    ensures r.Ok? ==> r == VisitReceipt(t, mask, tally, encoded)
  {
    hide DecodeReceipt;
    hide RecordAll;
    var visited := ReceiptReader.VisitLogs(encoded, LogVisitor(t, mask), tally.totals);
    ghost var decoded := DecodeReceipt(encoded);
    if decoded.Some? {
      LogsRecorded(t, mask, tally.totals, decoded.value.success, decoded.value.logs);
    }
    match visited
    case Err(VisitFailed(e)) => r := Err(BadLog(e));
    case Err(_) => r := Err(BadReceipt);
    case Ok((stats, totals)) =>
      var logs := tally.logs + stats.logCount;
      if logs >= U64_LIMIT {
        return Err(CounterOverflow);
      }
      var failed := tally.failed + if stats.success then 0 else 1;
      if failed >= U64_LIMIT {
        return Err(CounterOverflow);
      }
      r := Ok(Tally(totals, logs, failed));
  }

  // ----- one block -----

  /** What one block does to the run. */
  ghost predicate BlockStep(
    block: Option<(Hash, seq<Receipt>)>, t: Terms, mask: byte, tally: Tally,
    r: Result<(Hash, Tally, nat), ChunkError>)
    requires Countable(t)
  {
    match block
    case None => r.Err?
    case Some((hash, receipts)) =>
      match CountAll(t, mask, tally, receipts)
      case Err(_) => r.Err?
      case Ok(next) => r == Ok((hash, next, |receipts|))
  }

  method RunBlock(H: Keccak, t: Terms, mask: byte, frame: Bytes, height: nat, parent: Hash, tally: Tally)
    returns (r: Result<(Hash, Tally, nat), ChunkError>)
    requires Countable(t)
    ensures BlockStep(BlockReceipts(H, frame, height, parent), t, mask, tally, r)
  {
    hide BlockOf;
    hide ParseHeader;
    hide CompleteReceipts;
    hide ReceiptsOf;
    hide ReceiptVisits;
    hide CountAll;
    hide FoldVisits;
    var block := DecodeBlock(H, frame);
    if block.Err? {
      return Err(BadFrame(block.error));
    }
    var (encoded, nodes) := block.value;
    var parsed := ParseNitroHeader(encoded);
    if parsed.Err? {
      return Err(BadHeader(parsed.error));
    }
    var header := parsed.value;
    if header.number != height {
      return Err(NumberGap);
    }
    if header.parentHash != parent {
      return Err(ParentMismatch);
    }
    var complete := VisitAllReceipts(H, header.receiptsRoot, nodes, Visitor(t, mask), tally);
    ghost var values := CompleteReceipts(H, header.receiptsRoot, nodes);
    if values.Some? {
      VisitsCount(t, mask, tally, ReceiptVisits(values.value));
    }
    if complete.Err? {
      return Err(BadTrie(complete.error));
    }
    r := Ok((H(encoded), complete.value.state, complete.value.count));
  }

  // ----- the loop -----

  /** The blocks done so far form a chain whose receipts are counted in the tally. */
  ghost predicate Progress(
    H: Keccak, c: Context, blocks: seq<Bytes>, done: seq<Bytes>, rest: seq<Bytes>, parent: Hash,
    receipts: seq<Receipt>, tally: Tally)
    requires Countable(c.terms)
  {
    && blocks == done + rest
    && Chain(H, c.fromExclusive, c.beforeHash, done) == Some((parent, receipts))
    && CountAll(c.terms, c.coverageMask, ZeroTally(), receipts) == Ok(tally)
    && |receipts| < U64_LIMIT
  }

  lemma {:induction false} CountConcat(t: Terms, mask: byte, tally: Tally, a: seq<Receipt>, b: seq<Receipt>)
    requires Countable(t)
    ensures CountAll(t, mask, tally, a + b) ==
            var front := CountAll(t, mask, tally, a);
            if front.Err? then front else CountAll(t, mask, front.value, b)
  {
    hide CountReceipt;
    if b == [] {
      assert a + b == a;
    } else {
      CountConcat(t, mask, tally, a, b[..|b| - 1]);
      assert (a + b)[..|a + b| - 1] == a + b[..|b| - 1];
    }
  }

  lemma ChainStep(H: Keccak, height: nat, parent: Hash, done: seq<Bytes>, frame: Bytes)
    ensures Chain(H, height, parent, done + [frame]) ==
            var front := Chain(H, height, parent, done);
            if front.None? then None
            else
              var block := BlockReceipts(H, frame, height + |done| + 1, front.value.0);
              if block.None? then None else Some((block.value.0, front.value.1 + block.value.1))
  {
    hide BlockReceipts;
    assert (done + [frame])[..|done|] == done;
  }

  /** A successful block makes progress. */
  lemma ProgressStep(
      H: Keccak, c: Context, blocks: seq<Bytes>, done: seq<Bytes>, frame: Bytes, rest: seq<Bytes>, parent: Hash,
      receipts: seq<Receipt>, tally: Tally, r: Result<(Hash, Tally, nat), ChunkError>)
    requires Countable(c.terms) && Progress(H, c, blocks, done, [frame] + rest, parent, receipts, tally)
    requires var block := BlockReceipts(H, frame, c.fromExclusive + |done| + 1, parent);
             BlockStep(block, c.terms, c.coverageMask, tally, r)
    ensures r.Ok? ==> BlockReceipts(H, frame, c.fromExclusive + |done| + 1, parent).Some?
    ensures r.Ok? && |receipts| + r.value.2 < U64_LIMIT ==>
              var more := BlockReceipts(H, frame, c.fromExclusive + |done| + 1, parent).value.1;
              && r.value.2 == |more|
              && Progress(H, c, blocks, done + [frame], rest, r.value.0, receipts + more, r.value.1)
    ensures ValidContext(H, c) && (r.Err? || |receipts| + r.value.2 >= U64_LIMIT) ==>
              EvaluateBlocks(H, c, blocks).None?
  {
    hide BlockReceipts;
    hide Chain;
    hide CountAll;
    hide ValidContext;
    var block := BlockReceipts(H, frame, c.fromExclusive + |done| + 1, parent);
    assert blocks == (done + [frame]) + rest;
    ChainStep(H, c.fromExclusive, c.beforeHash, done, frame);
    ChainConcat(H, c.fromExclusive, c.beforeHash, done + [frame], rest);
    if block.Some? {
      CountConcat(c.terms, c.coverageMask, ZeroTally(), receipts, block.value.1);
      var tail := Chain(H, c.fromExclusive + |done| + 1, block.value.0, rest);
      if tail.Some? {
        CountConcat(c.terms, c.coverageMask, ZeroTally(), receipts + block.value.1, tail.value.1);
      }
    }
  }

  /** All blocks of the range, and the checks at its end. */
  method RunRange(H: Keccak, c: Context, source: FrameSource)
    returns (r: Result<(Tally, Diagnostics), ChunkError>)
    requires ValidContext(H, c) && Countable(c.terms)
    modifies source
    ensures var expected := EvaluateBlocks(H, c, old(source.remaining));
            && (r.Err? ==> expected.None?)
            && (r.Ok? ==> expected == Some(Outcome(JournalBytes(Journal(HeadFor(H, c), r.value.0.totals)), r.value.1)))
  {
    hide ValidContext;
    hide Chain;
    hide CountAll;
    hide BlockReceipts;
    hide EvaluateBlocks;
    hide Progress;
    hide BlockStep;
    hide JournalBytes;
    ghost var blocks := source.remaining;
    ghost var done: seq<Bytes>, receipts: seq<Receipt> := [], [];
    var height, parent, tally, count: nat, blockCount: nat := c.fromExclusive, c.beforeHash, ZeroTally(), 0, 0;
    StartProgress(H, c, blocks);
    RangeNonEmpty(H, c);
    while height < c.toInclusive
      invariant height == c.fromExclusive + |done| && blockCount == |done| && count == |receipts|
      invariant height <= c.toInclusive
      invariant Progress(H, c, blocks, done, source.remaining, parent, receipts, tally)
    {
      height := height + 1;
      ghost var pending := source.remaining;
      var frame := source.Next();
      if frame.None? {
        ShortRange(H, c, blocks, done, pending, parent, receipts, tally);
        return Err(MissingBlock);
      }
      var step := RunBlock(H, c.terms, c.coverageMask, frame.value, height, parent, tally);
      assert pending == [frame.value] + source.remaining;
      ProgressStep(H, c, blocks, done, frame.value, source.remaining, parent, receipts, tally, step);
      if step.Err? {
        return Err(step.error);
      }
      if count + step.value.2 >= U64_LIMIT {
        return Err(CounterOverflow);
      }
      receipts := receipts + BlockReceipts(H, frame.value, height, parent).value.1;
      done := done + [frame.value];
      parent, tally := step.value.0, step.value.1;
      count, blockCount := count + step.value.2, blockCount + 1;
    }
    RangeEnd(H, c, blocks, done, source.remaining, parent, receipts, tally);
    if parent != c.endHash {
      return Err(EndMismatch);
    }
    var trailing := source.Next();
    if trailing.Some? {
      return Err(TrailingFrame);
    }
    r := Ok((tally, Diagnostics(blockCount, count, tally.failed, tally.logs)));
  }

  lemma RangeNonEmpty(H: Keccak, c: Context)
    requires ValidContext(H, c)
    ensures c.fromExclusive < c.toInclusive
  {
    hide ValidTerms;
  }

  lemma StartProgress(H: Keccak, c: Context, blocks: seq<Bytes>)
    requires Countable(c.terms)
    ensures Progress(H, c, blocks, [], blocks, c.beforeHash, [], ZeroTally())
  {
  }

  lemma ShortRange(
      H: Keccak, c: Context, blocks: seq<Bytes>, done: seq<Bytes>, rest: seq<Bytes>, parent: Hash,
      receipts: seq<Receipt>, tally: Tally)
    requires ValidContext(H, c) && Countable(c.terms)
    requires Progress(H, c, blocks, done, rest, parent, receipts, tally)
    requires rest == [] && |done| < c.toInclusive - c.fromExclusive
    ensures EvaluateBlocks(H, c, blocks).None?
  {
    hide ValidContext;
    hide Chain;
    hide CountAll;
  }

  lemma RangeEnd(
      H: Keccak, c: Context, blocks: seq<Bytes>, done: seq<Bytes>, rest: seq<Bytes>, parent: Hash,
      receipts: seq<Receipt>, tally: Tally)
    requires ValidContext(H, c) && Countable(c.terms)
    requires Progress(H, c, blocks, done, rest, parent, receipts, tally)
    requires |done| == c.toInclusive - c.fromExclusive
    ensures EvaluateBlocks(H, c, blocks) ==
            if parent != c.endHash || rest != [] then None
            else Some(Outcome(JournalBytes(Journal(HeadFor(H, c), tally.totals)),
                              Diagnostics(|done|, |receipts|, tally.failed, tally.logs)))
  {
    hide ValidContext;
    hide Chain;
    hide CountAll;
    if rest == [] {
      assert blocks == done;
    }
  }

  // ----- the whole run -----

  /** Evaluates a frame sequence. It succeeds exactly when the frames are evaluated by the
      specification, with the same journal and counters. */
  method EvaluateFrames(H: Keccak, frames: seq<Bytes>) returns (r: Result<Outcome, ChunkError>)
    ensures Evaluate(H, frames) == if r.Ok? then Some(r.value) else None
  {
    hide ContextOf;
    hide EvaluateBlocks;
    hide ValidHead;
    hide ValidTerms;
    hide HeadFor;
    hide JournalBytes;
    var source := new FrameSource(frames);
    var first := source.Next();
    if first.None? {
      return Err(MissingContext);
    }
    var decoded := DecodeContext(H, first.value);
    if decoded.Err? {
      return Err(BadFrame(decoded.error));
    }
    var c := decoded.value;
    ContextCanonical(H, first.value, c);
    ValidCountable(H, c);
    var journal := Journal(HeadFor(H, c), ZeroTotals());
    var checked := ValidateJournal(H, journal, c.terms);
    ZeroPadded(c.coverageMask);
    if checked.Err? {
      return Err(BadJournal(checked.error));
    }
    var ran := RunRange(H, c, source);
    if ran.Err? {
      return Err(ran.error);
    }
    var (tally, diagnostics) := ran.value;
    journal := Journal(HeadFor(H, c), tally.totals);
    FinalJournal(H, c, frames[1..], tally.totals, diagnostics);
    var encoded := EncodeJournal(H, journal, c.terms);
    r := match encoded
         case Err(e) => Err(BadJournal(e))
         case Ok(bytes) => Ok(Outcome(bytes, diagnostics));
  }

  /** The journal of a finished run passes its own validation. */
  lemma FinalJournal(H: Keccak, c: Context, blocks: seq<Bytes>, totals: FullTotals, diagnostics: Diagnostics)
    requires ValidContext(H, c)
    requires EvaluateBlocks(H, c, blocks) == Some(Outcome(JournalBytes(Journal(HeadFor(H, c), totals)), diagnostics))
    ensures ValidJournal(H, Journal(HeadFor(H, c), totals), c.terms)
  {
    var end, receipts := EvaluatedChain(H, c, blocks);
    var sums := EvaluatedTotals(H, c, blocks, end, receipts);
    hide ValidContext;
    hide EvaluateBlocks;
    hide JournalBytes;
    hide JournalFields;
    hide ValidJournal;
    var j, k := Journal(HeadFor(H, c), totals), Journal(HeadFor(H, c), sums);
    JournalFieldsCanonical(JournalBytes(j), j);
    JournalFieldsCanonical(JournalBytes(k), k);
  }

  lemma ValidCountable(H: Keccak, c: Context)
    requires ValidTerms(H, c.terms)
    ensures Countable(c.terms)
  {
    ValidIsCountable(H, c.terms);
  }

  lemma ZeroPadded(mask: byte)
    ensures Padded(mask, ZeroTotals())
  {
  }
}
