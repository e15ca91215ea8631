/** V4 swap qualification and the checked accumulation of quote volume per entrant. */
module Volume {
  import opened Prelude
  import opened Uint
  import opened AbiWords
  import opened WordReaders
  import opened VolumeTerms
  import opened Journals
  import BigEndian

  datatype Log = Log(emitter: Address, topics: seq<Hash>, data: Bytes)

  datatype Swap = Swap(
    entrant: nat, sender: Address, amount0: int, amount1: int, quote: Word, tokenIsOutput: bool)

  function SwapTopic(): Hash {
    [0x40, 0xe9, 0xce, 0xcb, 0x9f, 0x5f, 0x1f, 0x1c, 0x5b, 0x9c, 0x97, 0xde, 0xc2, 0x91, 0x7b, 0x7e] +
    [0xe9, 0x2e, 0x57, 0xba, 0x55, 0x63, 0x70, 0x8d, 0xac, 0xa9, 0x4d, 0xd8, 0x4a, 0xd7, 0x11, 0x2f]
  }

  /** What the accumulator relies on of checked terms. */
  predicate Countable(t: Terms) {
    t.Sized() && t.identity.entrantCount <= 8
  }

  // ----- qualification -----

  predicate KnownEmitter(t: Terms, emitter: Address)
    requires Countable(t)
  {
    exists i :: 0 <= i < t.identity.entrantCount && t.venues[i].account == emitter
  }

  /** The first active slot at or after `i` whose pinned pool emitted the log. */
  function PoolPosition(t: Terms, emitter: Address, poolId: Hash, i: nat): (r: Option<nat>)
    requires Countable(t) && i <= t.identity.entrantCount
    ensures r.Some? ==>
              && i <= r.value < t.identity.entrantCount
              && t.venues[r.value].account == emitter && t.venues[r.value].poolId == poolId
    ensures r.None? ==>
              forall k :: i <= k < t.identity.entrantCount ==>
                !(t.venues[k].account == emitter && t.venues[k].poolId == poolId)
    decreases t.identity.entrantCount - i
  {
    if i == t.identity.entrantCount then None
    else if t.venues[i].account == emitter && t.venues[i].poolId == poolId then Some(i)
    else PoolPosition(t, emitter, poolId, i + 1)
  }

  /** Who swapped how much: the checked content of a swap log. */
  datatype Amounts = Amounts(sender: Address, amount0: int, amount1: int)

  function DecodeSwap(log: Log): (r: Result<Amounts, CoreError>)
    requires |log.topics| == 3 && |log.data| == 192
    ensures r.Ok? ==> InSigned(r.value.amount0, 16) && InSigned(r.value.amount1, 16)
  {
    var sender :- DecodeAddress(log.topics[2]);
    var amount0 :- DecodeSigned(WordAt(log.data, 0, 0), 16);
    var amount1 :- DecodeSigned(WordAt(log.data, 0, 1), 16);
    var _ :- DecodeUint(WordAt(log.data, 0, 2), 20);
    var _ :- DecodeUint(WordAt(log.data, 0, 3), 16);
    var _ :- Int24Of(WordAt(log.data, 0, 4));
    var _ :- DecodeUint(WordAt(log.data, 0, 5), 3);
    SignedCanonical(WordAt(log.data, 0, 0), 16, amount0);
    SignedCanonical(WordAt(log.data, 0, 1), 16, amount1);
    Ok(Amounts(sender, amount0, amount1))
  }

  /** The swap event: two deltas, then price, liquidity, tick and fee, which must fit their types. */
  datatype SwapEvent = SwapEvent(
    amounts: Amounts, sqrtPrice: nat, liquidity: nat, tick: int, fee: nat)

  predicate ValidEvent(e: SwapEvent) {
    && InSigned(e.amounts.amount0, 16) && InSigned(e.amounts.amount1, 16)
    && e.sqrtPrice < BigEndian.Pow256(20) && e.liquidity < BigEndian.Pow256(16)
    && InSigned(e.tick, 3) && e.fee < BigEndian.Pow256(3)
  }

  function EventWords(e: SwapEvent): (ws: seq<Word>)
    requires ValidEvent(e)
    ensures |ws| == 6
  {
    [SignedWord(e.amounts.amount0, 16), SignedWord(e.amounts.amount1, 16), UintWord(e.sqrtPrice),
     UintWord(e.liquidity), SignedWord(e.tick, 3), UintWord(e.fee)]
  }

  /** A log has these amounts exactly when it is the encoding of a swap event with them. */
  lemma SwapCanonical(log: Log, a: Amounts)
    requires |log.topics| == 3 && |log.data| == 192
    ensures DecodeSwap(log) == Ok(a) <==>
            log.topics[2] == AddressWord(a.sender) &&
            exists e :: ValidEvent(e) && e.amounts == a && log.data == Flatten(EventWords(e))
  {
    hide AddressWord;
    hide UintWord;
    hide SignedWord;
    hide DecodeAddress;
    hide DecodeSigned;
    hide DecodeUint;
    hide Int24Of;
    hide InSigned;
    hide BigEndian.Pow256;
    AddressCanonical(log.topics[2], a.sender);
    SignedCanonical(WordAt(log.data, 0, 0), 16, a.amount0);
    SignedCanonical(WordAt(log.data, 0, 1), 16, a.amount1);
    if DecodeSwap(log) == Ok(a) {
      var e := EventOf(log, a);
      EventAt(log.data, e);
    }
    if e :| ValidEvent(e) && e.amounts == a && log.data == Flatten(EventWords(e)) {
      EventAt(log.data, e);
      EventFields(log, e);
    }
  }

  lemma EventAt(data: Bytes, e: SwapEvent)
    requires |data| == 192 && ValidEvent(e)
    ensures var ws := EventWords(e);
            data == Flatten(ws) <==>
            WordAt(data, 0, 0) == ws[0] && WordAt(data, 0, 1) == ws[1] && WordAt(data, 0, 2) == ws[2]
            && WordAt(data, 0, 3) == ws[3] && WordAt(data, 0, 4) == ws[4] && WordAt(data, 0, 5) == ws[5]
  {
    FlattenAt(EventWords(e), data);
    hide EventWords;
    hide Flatten;
    hide ValidEvent;
  }

  lemma EventFields(log: Log, e: SwapEvent)
    requires |log.data| == 192 && ValidEvent(e)
    requires WordAt(log.data, 0, 2) == UintWord(e.sqrtPrice) && WordAt(log.data, 0, 3) == UintWord(e.liquidity)
    requires WordAt(log.data, 0, 4) == SignedWord(e.tick, 3) && WordAt(log.data, 0, 5) == UintWord(e.fee)
    ensures DecodeUint(WordAt(log.data, 0, 2), 20).Ok? && DecodeUint(WordAt(log.data, 0, 3), 16).Ok?
    ensures Int24Of(WordAt(log.data, 0, 4)).Ok? && DecodeUint(WordAt(log.data, 0, 5), 3).Ok?
  {
    hide UintWord;
    hide DecodeUint;
    hide SignedWord;
    hide Int24Of;
    UintCanonical(WordAt(log.data, 0, 2), 20, e.sqrtPrice);
    UintCanonical(WordAt(log.data, 0, 3), 16, e.liquidity);
    Int24Range(e.tick);
    Int24Canonical(WordAt(log.data, 0, 4), e.tick);
    UintCanonical(WordAt(log.data, 0, 5), 3, e.fee);
  }

  lemma EventOf(log: Log, a: Amounts) returns (e: SwapEvent)
    requires |log.topics| == 3 && |log.data| == 192 && DecodeSwap(log) == Ok(a)
    ensures ValidEvent(e) && e.amounts == a
    ensures WordAt(log.data, 0, 2) == UintWord(e.sqrtPrice) && WordAt(log.data, 0, 3) == UintWord(e.liquidity)
    ensures WordAt(log.data, 0, 4) == SignedWord(e.tick, 3) && WordAt(log.data, 0, 5) == UintWord(e.fee)
  {
    hide UintWord;
    hide DecodeUint;
    hide SignedWord;
    hide Int24Of;
    hide DecodeSigned;
    hide DecodeAddress;
    hide WordValue;
    var price, liquidity, fee := WordAt(log.data, 0, 2), WordAt(log.data, 0, 3), WordAt(log.data, 0, 5);
    var tick := Int24Of(WordAt(log.data, 0, 4)).value;
    hide DecodeSwap;
    UintCanonical(price, 20, WordValue(price));
    UintCanonical(liquidity, 16, WordValue(liquidity));
    Int24Canonical(WordAt(log.data, 0, 4), tick);
    UintCanonical(fee, 3, WordValue(fee));
    e := SwapEvent(a, WordValue(price), WordValue(liquidity), tick, WordValue(fee));
  }

  function Abs(v: int): nat {
    if v < 0 then -v else v
  }

  /** The swap of an entrant, unless its quote amount is below the floor. */
  function Measure(t: Terms, index: nat, a: Amounts): Option<Swap>
    requires Countable(t) && index < t.identity.entrantCount
  {
    var v := t.venues[index];
    var (tokenDelta, quoteDelta) :=
      if t.entrants[index] == v.currency0 then (a.amount0, a.amount1) else (a.amount1, a.amount0);
    var quote := UintWord(Abs(quoteDelta));
    if LexLess(quote, v.minNotional) then None
    else Some(Swap(index, a.sender, a.amount0, a.amount1, quote, tokenDelta > 0))
  }

  function Qualify(t: Terms, log: Log): (r: Result<Option<Swap>, CoreError>)
    requires Countable(t)
    ensures r.Ok? && r.value.Some? ==> r.value.value.entrant < t.identity.entrantCount
  {
    if !KnownEmitter(t, log.emitter) || log.topics == [] || log.topics[0] != SwapTopic() then Ok(None)
    else if |log.topics| != 3 then Err(CoreError.Length)
    else
      match PoolPosition(t, log.emitter, log.topics[1], 0)
      case None => Ok(None)
      case Some(index) =>
        if |log.data| != 192 then Err(CoreError.Length)
        else
          var amounts :- DecodeSwap(log);
          Ok(Measure(t, index, amounts))
  }

  /** A qualified amount is the exact absolute quote delta, and at least the floor. */
  lemma MeasuredAmount(t: Terms, index: nat, a: Amounts)
    requires Countable(t) && index < t.identity.entrantCount
    requires InSigned(a.amount0, 16) && InSigned(a.amount1, 16)
    ensures var v := t.venues[index];
            var quoteDelta := if t.entrants[index] == v.currency0 then a.amount1 else a.amount0;
            match Measure(t, index, a)
            case None => Abs(quoteDelta) < WordValue(v.minNotional)
            case Some(s) => WordValue(s.quote) == Abs(quoteDelta) >= WordValue(v.minNotional)
  {
    var v := t.venues[index];
    var quoteDelta := if t.entrants[index] == v.currency0 then a.amount1 else a.amount0;
    AmountFits(quoteDelta);
    ValueOfWord(Abs(quoteDelta));
    WordOrder(UintWord(Abs(quoteDelta)), v.minNotional);
    hide LexLess;
    hide WordValue;
    hide WordOf;
    hide InSigned;
    hide Limit256;
  }

  lemma AmountFits(v: int)
    requires InSigned(v, 16)
    ensures Abs(v) < Limit256()
  {
    BigEndian.PowMonotone(16, 32);
    assert 2 * Half(16) == BigEndian.Pow256(16);
  }

  // ----- what is qualified, and what is malformed -----

  /** The log is this swap event, emitted for the pinned pool of slot `i`. */
  ghost predicate SwapIn(t: Terms, log: Log, i: nat, e: SwapEvent)
    requires Countable(t) && i < t.identity.entrantCount
  {
    && ValidEvent(e) && log.emitter == t.venues[i].account
    && log.topics == [SwapTopic(), t.venues[i].poolId, AddressWord(e.amounts.sender)]
    && log.data == Flatten(EventWords(e))
  }

  /** The amount of the currency that is not the entrant token. */
  function QuoteDelta(t: Terms, i: nat, a: Amounts): int
    requires Countable(t) && i < t.identity.entrantCount
  {
    if t.entrants[i] == t.venues[i].currency0 then a.amount1 else a.amount0
  }

  predicate NamesPool(t: Terms, log: Log, i: nat)
    requires Countable(t) && i < t.identity.entrantCount
  {
    log.emitter == t.venues[i].account && |log.topics| > 1 && log.topics[1] == t.venues[i].poolId
  }

  /** A log with the swap topic from a pinned account that has not three topics, or names a pinned pool
      and is no swap event. */
  ghost predicate Malformed(t: Terms, log: Log)
    requires Countable(t)
  {
    && (exists i :: 0 <= i < t.identity.entrantCount && t.venues[i].account == log.emitter)
    && log.topics != [] && log.topics[0] == SwapTopic()
    && (|log.topics| != 3 ||
        exists i :: 0 <= i < t.identity.entrantCount && NamesPool(t, log, i) && !exists e :: SwapIn(t, log, i, e))
  }

  ghost predicate SwapWith(t: Terms, log: Log, i: nat, a: Amounts)
    requires Countable(t) && i < t.identity.entrantCount
  {
    exists e :: SwapIn(t, log, i, e) && e.amounts == a
  }

  /** The quote is the absolute amount of the currency that is not the entrant token, at or above the
      floor; the token is an output when its amount is positive. */
  predicate MeasuredAs(t: Terms, s: Swap)
    requires Countable(t) && s.entrant < t.identity.entrantCount
  {
    var v := t.venues[s.entrant];
    var (token: int, quote: int) :=
      if t.entrants[s.entrant] == v.currency0 then (s.amount0, s.amount1) else (s.amount1, s.amount0);
    && (WordValue(s.quote) == quote || WordValue(s.quote) == -quote)
    && WordValue(s.quote) >= WordValue(v.minNotional)
    && (s.tokenIsOutput <==> token > 0)
  }

  /** The log is a swap event for the first slot whose pool it names, measured as this swap. */
  ghost predicate QualifiedAs(t: Terms, log: Log, s: Swap)
    requires Countable(t)
  {
    && s.entrant < t.identity.entrantCount
    && (forall k :: 0 <= k < s.entrant ==> !NamesPool(t, log, k))
    && SwapWith(t, log, s.entrant, Amounts(s.sender, s.amount0, s.amount1))
    && MeasuredAs(t, s)
  }

  /** A log that names a pool decodes exactly when it is a swap event in it. */
  lemma NamedSwap(t: Terms, log: Log, i: nat, a: Amounts)
    requires Countable(t) && i < t.identity.entrantCount && NamesPool(t, log, i)
    requires |log.topics| == 3 && log.topics[0] == SwapTopic()
    ensures (|log.data| == 192 && DecodeSwap(log) == Ok(a)) <==> SwapWith(t, log, i, a)
  {
    hide SwapTopic;
    hide AddressWord;
    hide EventWords;
    hide ValidEvent;
    hide DecodeSwap;
    assert log.topics == [log.topics[0], log.topics[1], log.topics[2]];
    if |log.data| == 192 {
      SwapCanonical(log, a);
    }
    if e :| SwapIn(t, log, i, e) && e.amounts == a {
      assert |EventWords(e)| == 6;
    }
  }

  lemma PositionNames(t: Terms, log: Log)
    requires Countable(t) && |log.topics| == 3
    ensures var found := PoolPosition(t, log.emitter, log.topics[1], 0);
            && (found.Some? ==> NamesPool(t, log, found.value) && forall k :: 0 <= k < found.value ==> !NamesPool(t, log, k))
            && (found.None? ==> forall k :: 0 <= k < t.identity.entrantCount ==> !NamesPool(t, log, k))
  {
    FirstPosition(t, log.emitter, log.topics[1], 0);
  }

  lemma {:induction false} FirstPosition(t: Terms, emitter: Address, poolId: Hash, i: nat)
    requires Countable(t) && i <= t.identity.entrantCount
    ensures var found := PoolPosition(t, emitter, poolId, i);
            found.Some? ==>
              forall k :: i <= k < found.value ==> !(t.venues[k].account == emitter && t.venues[k].poolId == poolId)
    decreases t.identity.entrantCount - i
  {
    if i < t.identity.entrantCount {
      FirstPosition(t, emitter, poolId, i + 1);
    }
  }

  /** Qualification fails on exactly the malformed logs, and on no other. */
  lemma QualifyFails(t: Terms, log: Log)
    requires Countable(t)
    ensures Qualify(t, log).Err? <==> Malformed(t, log)
  {
    hide SwapTopic;
    hide DecodeSwap;
    hide Measure;
    hide SwapIn;
    hide PoolPosition;
    if KnownEmitter(t, log.emitter) && |log.topics| == 3 && log.topics[0] == SwapTopic() {
      PositionNames(t, log);
      forall i | 0 <= i < t.identity.entrantCount && NamesPool(t, log, i)
        ensures (|log.data| == 192 && DecodeSwap(log).Ok?) <==> exists e :: SwapIn(t, log, i, e)
      {
        DecodesAsSwap(t, log, i);
      }
    }
  }

  lemma DecodesAsSwap(t: Terms, log: Log, i: nat)
    requires Countable(t) && i < t.identity.entrantCount && NamesPool(t, log, i)
    requires |log.topics| == 3 && log.topics[0] == SwapTopic()
    ensures (|log.data| == 192 && DecodeSwap(log).Ok?) <==> exists e :: SwapIn(t, log, i, e)
  {
    hide SwapTopic;
    hide DecodeSwap;
    hide SwapIn;
    hide NamesPool;
    if |log.data| == 192 && DecodeSwap(log).Ok? {
      NamedSwap(t, log, i, DecodeSwap(log).value);
    }
    if e :| SwapIn(t, log, i, e) {
      NamedSwap(t, log, i, e.amounts);
    }
  }

  /** It gives a swap exactly when the log qualifies as that swap. */
  lemma QualifyMeaning(t: Terms, log: Log, s: Swap)
    requires Countable(t)
    ensures Qualify(t, log) == Ok(Some(s)) <==> QualifiedAs(t, log, s)
  {
    hide Qualify;
    hide QualifiedAs;
    if Qualify(t, log) == Ok(Some(s)) {
      QualifiedIsSwap(t, log, s);
    }
    if QualifiedAs(t, log, s) {
      SwapIsQualified(t, log, s);
    }
  }

  lemma QualifiedIsSwap(t: Terms, log: Log, s: Swap)
    requires Countable(t) && Qualify(t, log) == Ok(Some(s))
    ensures QualifiedAs(t, log, s)
  {
    hide SwapTopic;
    hide DecodeSwap;
    hide SwapWith;
    hide Measure;
    hide MeasuredAs;
    hide PoolPosition;
    PositionNames(t, log);
    var index, a := PoolPosition(t, log.emitter, log.topics[1], 0).value, DecodeSwap(log).value;
    MeasureKeeps(t, log, index, s);
    NamedSwap(t, log, index, a);
    MeasureMeaning(t, index, a, s);
  }

  lemma SwapIsQualified(t: Terms, log: Log, s: Swap)
    requires Countable(t) && QualifiedAs(t, log, s)
    ensures Qualify(t, log) == Ok(Some(s))
  {
    hide SwapTopic;
    hide DecodeSwap;
    hide SwapWith;
    hide Measure;
    hide MeasuredAs;
    hide PoolPosition;
    var a := Amounts(s.sender, s.amount0, s.amount1);
    SwapNames(t, log, s.entrant, a);
    PositionNames(t, log);
    NamedSwap(t, log, s.entrant, a);
    MeasureMeaning(t, s.entrant, a, s);
  }

  lemma SwapNames(t: Terms, log: Log, i: nat, a: Amounts)
    requires Countable(t)
    ensures i < t.identity.entrantCount && SwapWith(t, log, i, a) ==>
              NamesPool(t, log, i) && |log.topics| == 3 && log.topics[0] == SwapTopic() && KnownEmitter(t, log.emitter)
  {
    hide SwapTopic;
    hide AddressWord;
    hide EventWords;
    hide ValidEvent;
  }

  /** A measured swap carries the decoded amounts. */
  lemma MeasureKeeps(t: Terms, log: Log, index: nat, s: Swap)
    requires Countable(t) && index < t.identity.entrantCount && |log.topics| == 3 && |log.data| == 192
    requires DecodeSwap(log).Ok? && Measure(t, index, DecodeSwap(log).value) == Some(s)
    ensures DecodeSwap(log).value == Amounts(s.sender, s.amount0, s.amount1) && s.entrant == index
  {
    hide DecodeSwap;
    hide UintWord;
    hide LexLess;
  }

  lemma MeasureMeaning(t: Terms, index: nat, a: Amounts, s: Swap)
    requires Countable(t) && index < t.identity.entrantCount && s.entrant == index
    requires a == Amounts(s.sender, s.amount0, s.amount1)
    requires InSigned(a.amount0, 16) && InSigned(a.amount1, 16)
    ensures Measure(t, index, a) == Some(s) <==> MeasuredAs(t, s)
  {
    MeasuredAmount(t, index, a);
    var quote := if t.entrants[index] == t.venues[index].currency0 then a.amount1 else a.amount0;
    WordOfValue(s.quote);
    hide LexLess;
    hide WordValue;
    hide WordOf;
    hide InSigned;
    if WordValue(s.quote) == Abs(quote) {
      assert s.quote == UintWord(Abs(quote));
    }
  }

  // ----- accumulation -----

  function Accumulate(volume: Word, count: Word, quote: Word): Result<(Word, Word), CoreError> {
    match CheckedSum(volume, quote)
    case None => Err(Overflow)
    case Some(nextVolume) =>
      match CheckedSum(count, UintWord(1))
      case None => Err(Overflow)
      case Some(nextCount) => Ok((nextVolume, nextCount))
  }

  /** The totals after one log. */
  function RecordLog(t: Terms, mask: byte, totals: Totals, log: Log): (r: Result<Totals, CoreError>)
    requires Countable(t) && totals.Sized()
    ensures r.Ok? ==> r.value.Sized()
  {
    var qualified :- Qualify(t, log);
    match qualified
    case None => Ok(totals)
    case Some(s) =>
      if !Covers(mask, s.entrant) then Ok(totals)
      else
        var next :- Accumulate(totals.volumes[s.entrant], totals.counts[s.entrant], s.quote);
        Ok(Totals(totals.volumes[s.entrant := next.0], totals.counts[s.entrant := next.1]))
  }

  function RecordAll(t: Terms, mask: byte, totals: Totals, logs: seq<Log>): (r: Result<Totals, CoreError>)
    requires Countable(t) && totals.Sized()
    ensures r.Ok? ==> r.value.Sized()
  {
    if logs == [] then Ok(totals)
    else
      var front :- RecordAll(t, mask, totals, logs[..|logs| - 1]);
      RecordLog(t, mask, front, logs[|logs| - 1])
  }

  /** Adds to one volume and one count; an overflow of either leaves both unchanged. */
  method AccumulateChecked(volumes: array<Word>, counts: array<Word>, i: nat, quote: Word)
    returns (r: Result<(), CoreError>)
    requires volumes != counts && i < volumes.Length && i < counts.Length
    modifies volumes, counts
    ensures match Accumulate(old(volumes[i]), old(counts[i]), quote)
            case Ok((volume, count)) =>
              r == Ok(()) && volumes[..] == old(volumes[..])[i := volume] && counts[..] == old(counts[..])[i := count]
            case Err(e) => r == Err(e) && volumes[..] == old(volumes[..]) && counts[..] == old(counts[..])
  {
    hide CheckedSum;
    var nextVolume := CheckedAdd(volumes[i], quote);
    if nextVolume.None? {
      return Err(Overflow);
    }
    var nextCount := CheckedAdd(counts[i], UintWord(1));
    if nextCount.None? {
      return Err(Overflow);
    }
    volumes[i] := nextVolume.value;
    counts[i] := nextCount.value;
    r := Ok(());
  }

  class VolumeAccumulator {
    const terms: Terms
    const mask: byte
    const volumes: array<Word>
    const counts: array<Word>

    /** Zero totals; the terms and the mask are checked by `NewAccumulator`. */
    constructor (terms: Terms, mask: byte)
      ensures this.terms == terms && this.mask == mask
      ensures fresh(volumes) && fresh(counts) && volumes != counts
      ensures volumes.Length == 8 && counts.Length == 8
      ensures volumes[..] == ZeroTotals().volumes && counts[..] == ZeroTotals().counts
    {
      this.terms, this.mask := terms, mask;
      volumes := new Word[8](_ => ZeroWord());
      counts := new Word[8](_ => ZeroWord());
    }

    ghost predicate Valid()
      reads this
    {
      Countable(terms) && volumes != counts && volumes.Length == 8 && counts.Length == 8
    }

    ghost function Current(): (totals: Totals)
      requires Valid()
      reads this, volumes, counts
      ensures totals.Sized()
    {
      Totals(volumes[..], counts[..])
    }

    /** Records one log: a qualified swap of a covered entrant is added and returned. After an error
        nothing has changed. */
    method Record(log: Log) returns (r: Result<Option<Swap>, CoreError>)
      requires Valid()
      modifies volumes, counts
      ensures match RecordLog(terms, mask, old(Current()), log)
              case Ok(totals) => r.Ok? && Current() == totals
              case Err(e) => r == Err(e) && Current() == old(Current())
      ensures r.Ok? ==>
                r.value == match Qualify(terms, log)
                           case Ok(Some(s)) => if Covers(mask, s.entrant) then Some(s) else None
                           case _ => None
    {
      hide Qualify;
      hide Covers;
      hide Accumulate;
      var qualified :- Qualify(terms, log);
      if qualified.None? {
        return Ok(None);
      }
      var swap := qualified.value;
      if !Covers(mask, swap.entrant) {
        return Ok(None);
      }
      var added := AccumulateChecked(volumes, counts, swap.entrant, swap.quote);
      if added.Err? {
        return Err(added.error);
      }
      r := Ok(Some(swap));
    }
  }

  method NewAccumulator(H: Keccak, terms: Terms, mask: byte) returns (r: Result<VolumeAccumulator, CoreError>)
    requires terms.Sized()
    ensures r.Ok? <==> ValidTerms(H, terms) && ValidateMask(mask, terms.identity.entrantCount).Ok?
    ensures r.Ok? ==> fresh(r.value) && fresh(r.value.volumes) && fresh(r.value.counts)
    ensures r.Ok? ==> r.value.terms == terms && r.value.mask == mask
    ensures r.Ok? ==> r.value.Valid() && r.value.Current() == ZeroTotals()
  {
    hide ValidTerms;
    hide ValidateMask;
    var checked := Validate(H, terms);
    if checked.Err? {
      return Err(checked.error);
    }
    ValidIsCountable(H, terms);
    var masked := ValidateMask(mask, terms.identity.entrantCount);
    if masked.Err? {
      return Err(masked.error);
    }
    var accumulator := new VolumeAccumulator(terms, mask);
    r := Ok(accumulator);
  }

  lemma ValidIsCountable(H: Keccak, t: Terms)
    requires ValidTerms(H, t)
    ensures Countable(t)
  {
  }
}
