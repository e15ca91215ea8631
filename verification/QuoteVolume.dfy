/** The headline in plain terms: the totals of a run are sums of absolute quote deltas of swap events. */
module QuoteVolumes {
  import opened Prelude
  import opened Uint
  import opened AbiWords
  import opened WordReaders
  import opened VolumeTerms
  import opened Journals
  import opened Volume
  import opened VolumeSums
  import Receipts
  import Contexts
  import Chunks
  import ChunkTheorems
  import SwapQualification

  /** The absolute quote delta of a swap in the pool of a covered slot, if it reaches the floor. */
  ghost function QuoteShare(t: Terms, mask: byte, log: Log, i: nat): nat
    requires Countable(t) && i < t.identity.entrantCount
  {
    if Covers(mask, i) && exists e :: SwapIn(t, log, i, e) then
      var e :| SwapIn(t, log, i, e);
      var quote := Abs(QuoteDelta(t, i, e.amounts));
      if quote >= WordValue(t.venues[i].minNotional) then quote else 0
    else 0
  }

  ghost function QuoteSum(t: Terms, mask: byte, logs: seq<Log>, i: nat): nat
    requires Countable(t) && i < t.identity.entrantCount
  {
    if logs == [] then 0
    else QuoteSum(t, mask, logs[..|logs| - 1], i) + QuoteShare(t, mask, logs[|logs| - 1], i)
  }

  /** How many logs contribute. */
  ghost function QuoteCount(t: Terms, mask: byte, logs: seq<Log>, i: nat): nat
    requires Countable(t) && i < t.identity.entrantCount
  {
    if logs == [] then 0
    else
      QuoteCount(t, mask, logs[..|logs| - 1], i) +
      if QuoteShare(t, mask, logs[|logs| - 1], i) > 0 then 1 else 0
  }

  /** A swap event in a pinned pool is qualified by its quote delta. */
  lemma SwapQualifies(H: Keccak, t: Terms, log: Log, i: nat, e: SwapEvent)
    requires ValidTerms(H, t) && Countable(t) && i < t.identity.entrantCount && SwapIn(t, log, i, e)
    ensures var quote := Abs(QuoteDelta(t, i, e.amounts));
            && Qualify(t, log).Ok?
            && (quote < WordValue(t.venues[i].minNotional) ==> Qualify(t, log).value.None?)
            && (quote >= WordValue(t.venues[i].minNotional) ==>
                  && Qualify(t, log).value.Some? && Qualify(t, log).value.value.entrant == i
                  && WordValue(Qualify(t, log).value.value.quote) == quote)
  {
    hide SwapTopic;
    hide AddressWord;
    hide EventWords;
    hide Flatten;
    hide DecodeSwap;
    hide Qualify;
    hide ValidTerms;
    hide WordValue;
    assert |log.data| == 192;
    SwapCanonical(log, e.amounts);
    SwapQualification.PinnedLog(H, t, log, i);
    MeasuredAmount(t, i, e.amounts);
    hide InSigned;
  }

  lemma FloorIsPositive(H: Keccak, t: Terms, i: nat)
    requires ValidTerms(H, t) && Countable(t) && i < t.identity.entrantCount
    ensures WordValue(t.venues[i].minNotional) > 0
  {
    hide PoolKeyHash;
    hide ActiveEntrantsHash;
    hide WordValue;
    assert ValidVenue(H, t, t.entrants[i], t.venues[i]);
    ChunkTheorems.ZeroStart(0);
    if WordValue(t.venues[i].minNotional) == 0 {
      SameValue(t.venues[i].minNotional, ZeroWord());
    }
  }

  /** What a log adds to a slot is the absolute quote delta of its swap, and it counts once if that is
      not nothing. */
  lemma ShareIsQuote(H: Keccak, t: Terms, mask: byte, log: Log, i: nat)
    requires ValidTerms(H, t) && Countable(t) && i < t.identity.entrantCount
    ensures Share(t, mask, log, i) == QuoteShare(t, mask, log, i)
    ensures Hit(t, mask, log, i) == if QuoteShare(t, mask, log, i) > 0 then 1 else 0
  {
    hide ValidTerms;
    hide Qualify;
    hide SwapIn;
    hide Covers;
    hide WordValue;
    FloorIsPositive(H, t, i);
    if exists e :: SwapIn(t, log, i, e) {
      var e :| SwapIn(t, log, i, e) && (Covers(mask, i) ==>
        QuoteShare(t, mask, log, i) ==
          var quote := Abs(QuoteDelta(t, i, e.amounts));
          if quote >= WordValue(t.venues[i].minNotional) then quote else 0);
      SwapQualifies(H, t, log, i, e);
    } else if Qualify(t, log).Ok? && Qualify(t, log).value.Some? {
      QualifyMeaning(t, log, Qualify(t, log).value.value);
    }
  }

  lemma {:induction false} SumIsQuoteSum(H: Keccak, t: Terms, mask: byte, logs: seq<Log>, i: nat)
    requires ValidTerms(H, t) && Countable(t) && i < t.identity.entrantCount
    ensures VolumeSum(t, mask, logs, i) == QuoteSum(t, mask, logs, i)
    ensures CountSum(t, mask, logs, i) == QuoteCount(t, mask, logs, i)
  {
    hide ValidTerms;
    hide Share;
    hide Hit;
    hide QuoteShare;
    if logs != [] {
      SumIsQuoteSum(H, t, mask, logs[..|logs| - 1], i);
      ShareIsQuote(H, t, mask, logs[|logs| - 1], i);
    }
  }

  /** Recording logs under valid terms adds to each entrant the sum of the absolute quote deltas of the
      swaps in its pinned pool that reach its floor, and their number. */
  lemma TotalsAreQuoteVolumes(H: Keccak, t: Terms, mask: byte, start: FullTotals, logs: seq<Log>, i: nat)
    requires ValidTerms(H, t) && Countable(t) && i < t.identity.entrantCount
    requires RecordAll(t, mask, start, logs).Ok?
    ensures var totals := RecordAll(t, mask, start, logs).value;
            && WordValue(totals.volumes[i]) == WordValue(start.volumes[i]) + QuoteSum(t, mask, logs, i)
            && WordValue(totals.counts[i]) == WordValue(start.counts[i]) + QuoteCount(t, mask, logs, i)
  {
    hide RecordAll;
    hide VolumeSum;
    hide CountSum;
    hide WordValue;
    hide ValidTerms;
    hide WellFormedLogs;
    hide SumsFit;
    TotalsAreSums(t, mask, start, logs);
    SumIsQuoteSum(H, t, mask, logs, i);
    assert SlotSum(t, mask, start, logs, RecordAll(t, mask, start, logs).value, i);
  }

  /** The journal of an accepted run carries, for each entrant, the sum of the absolute quote deltas of
      all swaps in its pinned pool that reach its floor, over the successful receipts of the range. */
  lemma JournalQuotes(H: Keccak, c: Contexts.Context, blocks: seq<Bytes>, i: nat)
    returns (j: Journal, receipts: seq<Receipts.Receipt>)
    requires Chunks.ValidContext(H, c) && Chunks.EvaluateBlocks(H, c, blocks).Some?
    requires i < c.terms.identity.entrantCount
    ensures Chunks.Chain(H, c.fromExclusive, c.beforeHash, blocks) == Some((c.endHash, receipts))
    ensures JournalOf(H, Chunks.EvaluateBlocks(H, c, blocks).value.journal, c.terms) == Some(j)
    ensures Countable(c.terms) && j.totals.Sized()
    ensures var logs := Chunks.SuccessLogs(receipts);
            && WordValue(j.totals.volumes[i]) == QuoteSum(c.terms, c.coverageMask, logs, i)
            && WordValue(j.totals.counts[i]) == QuoteCount(c.terms, c.coverageMask, logs, i)
  {
    hide Chunks.EvaluateBlocks;
    hide Chunks.Chain;
    hide Chunks.SuccessLogs;
    hide JournalOf;
    hide VolumeSum;
    hide CountSum;
    hide QuoteSum;
    hide QuoteCount;
    hide WordValue;
    hide ZeroTotals;
    hide ValidTerms;
    hide ValidHead;
    j, receipts := ChunkTheorems.JournalReports(H, c, blocks);
    SumIsQuoteSum(H, c.terms, c.coverageMask, Chunks.SuccessLogs(receipts), i);
    ChunkTheorems.ZeroStart(i);
    assert SlotSum(c.terms, c.coverageMask, ZeroTotals(), Chunks.SuccessLogs(receipts), j.totals, i);
  }
}
