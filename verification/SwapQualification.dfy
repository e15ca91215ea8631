/** The TypeScript qualification rule, and its agreement with the pinned-pool rule of the accumulator. */
module SwapQualification {
  import opened Prelude
  import opened Uint
  import opened AbiWords
  import opened VolumeTerms
  import opened Volume

  datatype Metric = VolumeQuote | UniqueBuyers

  datatype PoolSwap = PoolSwap(currency0: Address, currency1: Address, amount0: int, amount1: int, poolPerspective: bool)

  /** The race a swap is measured for: entrants, wrapped native token, quote asset and floors. */
  datatype Race = Race(
    entrants: seq<Address>, metric: Metric, wrapper: Address, raceQuote: Option<Address>, floors: map<Address, nat>)

  datatype Qualification = Qualification(
    entrant: nat, token: Address, quoteAsset: Address, quoteAmount: nat, tokenIsOutput: bool)

  /** A missing floor is zero. */
  function FloorOf(race: Race, quoteAsset: Address): nat {
    if quoteAsset in race.floors then race.floors[quoteAsset] else 0
  }

  /** The verdict on one entrant: none if its token is not in the pool or a rule skips it. */
  function Candidate(race: Race, swap: PoolSwap, index: nat): Option<Qualification>
    requires index < |race.entrants|
  {
    var token := race.entrants[index];
    if token != swap.currency0 && token != swap.currency1 then None
    else
      var (rawQuote, tokenDelta, quoteDelta) :=
        if token == swap.currency0 then (swap.currency1, swap.amount0, swap.amount1)
        else (swap.currency0, swap.amount1, swap.amount0);
      var quoteAsset := QuoteOf(rawQuote, race.wrapper);
      var tokenIsOutput := if swap.poolPerspective then tokenDelta < 0 else tokenDelta > 0;
      var skipped :=
        if race.metric.VolumeQuote? then race.raceQuote != Some(quoteAsset)
        else FloorOf(race, quoteAsset) == 0 || !tokenIsOutput;
      if skipped || Abs(quoteDelta) < FloorOf(race, quoteAsset) then None
      else Some(Qualification(index, token, quoteAsset, Abs(quoteDelta), tokenIsOutput))
  }

  /** The first entrant at or after `i` that qualifies. */
  function FirstCandidate(race: Race, swap: PoolSwap, i: nat): Option<Qualification>
    requires i <= |race.entrants|
    decreases |race.entrants| - i
  {
    if i == |race.entrants| then None
    else if Candidate(race, swap, i).Some? then Candidate(race, swap, i)
    else FirstCandidate(race, swap, i + 1)
  }

  /** The loop over the entrants, with its early return. */
  method QualifySwap(race: Race, swap: PoolSwap) returns (r: Option<Qualification>)
    ensures r == FirstCandidate(race, swap, 0)
  {
    var index := 0;
    while index < |race.entrants|
      invariant index <= |race.entrants|
      invariant FirstCandidate(race, swap, 0) == FirstCandidate(race, swap, index)
    {
      var token := race.entrants[index];
      var rawQuote, tokenDelta, quoteDelta := swap.currency1, swap.amount0, swap.amount1;
      var listed := true;
      if token == swap.currency0 {
      } else if token == swap.currency1 {
        rawQuote, tokenDelta, quoteDelta := swap.currency0, swap.amount1, swap.amount0;
      } else {
        listed := false;
      }
      if listed {
        var quoteAsset := QuoteOf(rawQuote, race.wrapper);
        var floor := FloorOf(race, quoteAsset);
        var tokenIsOutput := if swap.poolPerspective then tokenDelta < 0 else tokenDelta > 0;
        var skipped := false;
        if race.metric.VolumeQuote? {
          skipped := race.raceQuote != Some(quoteAsset);
        } else {
          skipped := floor == 0 || !tokenIsOutput;
        }
        if !skipped && Abs(quoteDelta) >= floor {
          return Some(Qualification(index, token, quoteAsset, Abs(quoteDelta), tokenIsOutput));
        }
      }
      index := index + 1;
    }
    r := None;
  }

  // ----- what qualifies -----

  function Currencies(swap: PoolSwap): (cs: seq<Address>)
    ensures |cs| == 2
  {
    [swap.currency0, swap.currency1]
  }

  function Deltas(swap: PoolSwap): (ds: seq<int>)
    ensures |ds| == 2
  {
    [swap.amount0, swap.amount1]
  }

  /** The entrant's token is the currency on this side; the first side counts if it is both. */
  predicate OnSide(race: Race, swap: PoolSwap, k: nat, side: nat) {
    && k < |race.entrants| && side < 2 && race.entrants[k] == Currencies(swap)[side]
    && (side == 1 ==> race.entrants[k] != swap.currency0)
  }

  /** What the other side is accounted in: the wrapper for the native currency. */
  function Accounted(race: Race, swap: PoolSwap, side: nat): Address
    requires side < 2
  {
    var raw := Currencies(swap)[1 - side];
    if raw == ZeroAddress() then race.wrapper else raw
  }

  /** The account that called receives this side: the pool loses what the account gains. */
  predicate Received(swap: PoolSwap, side: nat)
    requires side < 2
  {
    if swap.poolPerspective then Deltas(swap)[side] < 0 else Deltas(swap)[side] > 0
  }

  /** The rule of the metric: the quote asset of the race, or a purchase against an asset with a floor. */
  predicate MeetsRule(race: Race, swap: PoolSwap, side: nat)
    requires side < 2
  {
    var asset := Accounted(race, swap, side);
    match race.metric
    case VolumeQuote => race.raceQuote == Some(asset)
    case UniqueBuyers => asset in race.floors && race.floors[asset] > 0 && Received(swap, side)
  }

  /** The quote delta, whatever its sign, is not below the floor of its asset, if there is one. */
  predicate ReachesFloor(race: Race, swap: PoolSwap, side: nat)
    requires side < 2
  {
    var asset, delta := Accounted(race, swap, side), Deltas(swap)[1 - side];
    asset in race.floors ==> delta >= race.floors[asset] || -delta >= race.floors[asset]
  }

  predicate Eligible(race: Race, swap: PoolSwap, k: nat, side: nat) {
    OnSide(race, swap, k, side) && MeetsRule(race, swap, side) && ReachesFloor(race, swap, side)
  }

  /** The qualification of an entrant measured on a side. */
  predicate Describes(race: Race, swap: PoolSwap, side: nat, q: Qualification)
    requires side < 2
  {
    && q.entrant < |race.entrants| && q.token == race.entrants[q.entrant]
    && q.quoteAsset == Accounted(race, swap, side)
    && (q.quoteAmount == Deltas(swap)[1 - side] || q.quoteAmount == -Deltas(swap)[1 - side])
    && (q.tokenIsOutput <==> Received(swap, side))
  }

  /** An entrant has a verdict exactly when it is eligible, and the verdict describes its side. */
  lemma CandidateMeaning(race: Race, swap: PoolSwap, k: nat)
    requires k < |race.entrants|
    ensures Candidate(race, swap, k).Some? <==> Eligible(race, swap, k, 0) || Eligible(race, swap, k, 1)
    ensures Candidate(race, swap, k).Some? ==>
              var q := Candidate(race, swap, k).value;
              q.entrant == k && forall side: nat :: side < 2 && OnSide(race, swap, k, side) ==> Describes(race, swap, side, q)
  {
    hide ZeroAddress;
  }

  /** No entrant from `i` up to `end` is eligible. */
  ghost predicate NobodyIn(race: Race, swap: PoolSwap, i: nat, end: nat) {
    forall k: nat, side: nat :: i <= k < end ==> !Eligible(race, swap, k, side)
  }

  /** The entrant is eligible and the qualification describes it. */
  ghost predicate Qualifies(race: Race, swap: PoolSwap, q: Qualification) {
    exists side: nat :: Eligible(race, swap, q.entrant, side) && Describes(race, swap, side, q)
  }

  /** The rule, for both metrics: the result is the description of the least eligible entrant, and there
      is none exactly when nobody is eligible. */
  lemma {:induction false} QualificationMeaning(race: Race, swap: PoolSwap, i: nat)
    requires i <= |race.entrants|
    ensures match FirstCandidate(race, swap, i)
            case None => NobodyIn(race, swap, i, |race.entrants|)
            case Some(q) =>
              && Qualifies(race, swap, q)
              && i <= q.entrant && NobodyIn(race, swap, i, q.entrant)
    decreases |race.entrants| - i
  {
    hide Candidate;
    hide MeetsRule;
    hide ReachesFloor;
    hide Describes;
    if i < |race.entrants| {
      CandidateMeaning(race, swap, i);
      if Candidate(race, swap, i).Some? {
        var side := if Eligible(race, swap, i, 0) then 0 else 1;
        assert Eligible(race, swap, i, side) && Describes(race, swap, side, Candidate(race, swap, i).value);
        assert Qualifies(race, swap, Candidate(race, swap, i).value);
      } else {
        QualificationMeaning(race, swap, i + 1);
        hide Qualifies;
        OnlyTwoSides(race, swap, i);
        var rest := FirstCandidate(race, swap, i + 1);
        OneMore(race, swap, i, if rest.Some? then rest.value.entrant else |race.entrants|);
      }
    }
  }

  lemma OneMore(race: Race, swap: PoolSwap, i: nat, end: nat)
    requires NobodyIn(race, swap, i + 1, end) && forall side: nat :: !Eligible(race, swap, i, side)
    ensures NobodyIn(race, swap, i, end)
  {
    hide Eligible;
    forall k: nat, side: nat | i <= k < end ensures !Eligible(race, swap, k, side) {
      assert k == i || i + 1 <= k;
    }
  }

  lemma OnlyTwoSides(race: Race, swap: PoolSwap, k: nat)
    ensures forall side: nat :: Eligible(race, swap, k, side) ==> side == 0 || side == 1
  {
  }

  /** The same swap seen from the other side: the pool's amounts are the account's, negated. */
  function Mirrored(swap: PoolSwap): PoolSwap {
    swap.(amount0 := -swap.amount0, amount1 := -swap.amount1, poolPerspective := !swap.poolPerspective)
  }

  /** The side from which the amounts are reported does not matter. */
  lemma {:induction false} PerspectiveIrrelevant(race: Race, swap: PoolSwap, i: nat)
    requires i <= |race.entrants|
    ensures FirstCandidate(race, Mirrored(swap), i) == FirstCandidate(race, swap, i)
    decreases |race.entrants| - i
  {
    if i < |race.entrants| {
      MirroredCandidate(race, swap, i);
      hide Candidate;
      PerspectiveIrrelevant(race, swap, i + 1);
    }
  }

  lemma MirroredCandidate(race: Race, swap: PoolSwap, k: nat)
    requires k < |race.entrants|
    ensures Candidate(race, Mirrored(swap), k) == Candidate(race, swap, k)
  {
    hide FloorOf;
    hide QuoteOf;
  }

  // ----- agreement -----

  /** The race of validated terms, with the floor of one of their venues for the common quote asset. */
  function RaceOf(t: Terms, floor: nat): Race
    requires Countable(t)
  {
    Race(t.entrants[..t.identity.entrantCount], VolumeQuote, t.services.wrappedNative, Some(t.services.quoteAsset),
         map[t.services.quoteAsset := floor])
  }

  /** A swap in the pinned pool of slot `i`, seen by the account. */
  function PinnedSwap(t: Terms, i: nat, a: Amounts): PoolSwap
    requires Countable(t) && i < t.identity.entrantCount
  {
    PoolSwap(t.venues[i].currency0, t.venues[i].currency1, a.amount0, a.amount1, false)
  }

  /** Under valid terms only the pinned entrant can qualify in its pool: any other entrant whose token is
      a currency of the pool would have to be measured in the pinned entrant's own token. */
  lemma OnlyPinned(H: Keccak, t: Terms, i: nat, k: nat, a: Amounts, floor: nat)
    requires ValidTerms(H, t) && Countable(t) && i < t.identity.entrantCount && k < t.identity.entrantCount && k != i
    ensures Candidate(RaceOf(t, floor), PinnedSwap(t, i, a), k).None?
  {
    hide PoolKeyHash;
    hide ActiveEntrantsHash;
    hide LexLess;
    var n := t.identity.entrantCount;
    assert ValidVenue(H, t, t.entrants[i], t.venues[i]) && ValidVenue(H, t, t.entrants[k], t.venues[k]);
    assert t.entrants[i] != t.entrants[k];
    assert t.entrants[..n][k] == t.entrants[k];
    DistinctCurrencies(H, t, i);
  }

  lemma DistinctCurrencies(H: Keccak, t: Terms, i: nat)
    requires ValidTerms(H, t) && Countable(t) && i < t.identity.entrantCount
    ensures t.venues[i].currency0 != t.venues[i].currency1
  {
    hide PoolKeyHash;
    assert ValidVenue(H, t, t.entrants[i], t.venues[i]);
    LexIrreflexive(t.venues[i].currency0);
  }

  lemma {:induction false} FirstIsPinned(H: Keccak, t: Terms, i: nat, k: nat, a: Amounts, floor: nat)
    requires ValidTerms(H, t) && Countable(t) && k <= i < t.identity.entrantCount
    ensures FirstCandidate(RaceOf(t, floor), PinnedSwap(t, i, a), k) == Candidate(RaceOf(t, floor), PinnedSwap(t, i, a), i)
    decreases i - k
  {
    hide Candidate;
    hide ValidTerms;
    if k < i {
      OnlyPinned(H, t, i, k, a, floor);
      FirstIsPinned(H, t, i, k + 1, a, floor);
    } else {
      NoneAfter(H, t, i, i + 1, a, floor);
    }
  }

  lemma {:induction false} NoneAfter(H: Keccak, t: Terms, i: nat, k: nat, a: Amounts, floor: nat)
    requires ValidTerms(H, t) && Countable(t) && i < k <= t.identity.entrantCount
    ensures FirstCandidate(RaceOf(t, floor), PinnedSwap(t, i, a), k).None?
    decreases t.identity.entrantCount - k
  {
    hide Candidate;
    hide ValidTerms;
    if k < t.identity.entrantCount {
      OnlyPinned(H, t, i, k, a, floor);
      NoneAfter(H, t, i, k + 1, a, floor);
    }
  }

  /** What the pinned rule says, in the terms of the other rule. */
  function Restated(t: Terms, s: Swap): Qualification
    requires Countable(t) && s.entrant < t.identity.entrantCount
  {
    Qualification(s.entrant, t.entrants[s.entrant], t.services.quoteAsset, WordValue(s.quote), s.tokenIsOutput)
  }

  /** Picking the entrant by its pinned pool and picking it by the first matching currency give the same
      entrant, amount and direction for every swap in a pinned pool at equal floors, native currency and
      wrapper entrants included. */
  lemma RulesAgree(H: Keccak, t: Terms, i: nat, a: Amounts)
    requires ValidTerms(H, t) && Countable(t) && i < t.identity.entrantCount
    requires InSigned(a.amount0, 16) && InSigned(a.amount1, 16)
    ensures FirstCandidate(RaceOf(t, WordValue(t.venues[i].minNotional)), PinnedSwap(t, i, a), 0) ==
            match Measure(t, i, a)
            case None => None
            case Some(s) => Some(Restated(t, s))
  {
    FirstIsPinned(H, t, i, 0, a, WordValue(t.venues[i].minNotional));
    PinnedCandidate(H, t, i, a);
    hide FirstCandidate;
    hide Candidate;
    hide Measure;
    hide ValidTerms;
    hide WordValue;
    hide InSigned;
  }

  /** The two rules measure the pinned entrant alike. */
  lemma PinnedCandidate(H: Keccak, t: Terms, i: nat, a: Amounts)
    requires ValidTerms(H, t) && Countable(t) && i < t.identity.entrantCount
    requires InSigned(a.amount0, 16) && InSigned(a.amount1, 16)
    ensures Candidate(RaceOf(t, WordValue(t.venues[i].minNotional)), PinnedSwap(t, i, a), i) ==
            match Measure(t, i, a)
            case None => None
            case Some(s) => Some(Restated(t, s))
  {
    MeasuredAmount(t, i, a);
    DistinctCurrencies(H, t, i);
    assert ValidVenue(H, t, t.entrants[i], t.venues[i]);
    assert t.entrants[..t.identity.entrantCount][i] == t.entrants[i];
    hide ValidTerms;
    hide WordValue;
    hide UintWord;
    hide LexLess;
    hide PoolKeyHash;
    hide InSigned;
  }

  /** A log is measured for the slot whose pool it names. */
  lemma PinnedLog(H: Keccak, t: Terms, log: Log, i: nat)
    requires ValidTerms(H, t) && Countable(t) && i < t.identity.entrantCount
    requires log.emitter == t.venues[i].account
    requires |log.topics| == 3 && log.topics[0] == SwapTopic() && log.topics[1] == t.venues[i].poolId
    requires |log.data| == 192
    ensures Qualify(t, log) ==
            match DecodeSwap(log)
            case Ok(a) => Ok(Measure(t, i, a))
            case Err(e) => Err(e)
  {
    hide SwapTopic;
    hide DecodeSwap;
    hide Measure;
    UniquePool(H, t, log.emitter, i);
    assert KnownEmitter(t, log.emitter);
  }

  lemma UniquePool(H: Keccak, t: Terms, emitter: Address, i: nat)
    requires ValidTerms(H, t) && Countable(t) && i < t.identity.entrantCount && emitter == t.venues[i].account
    ensures PoolPosition(t, emitter, t.venues[i].poolId, 0) == Some(i)
  {
    var found := PoolPosition(t, emitter, t.venues[i].poolId, 0);
    hide PoolPosition;
    hide ValidTerms;
    OnePool(H, t, i, if found.Some? then found.value else i);
  }

  lemma OnePool(H: Keccak, t: Terms, i: nat, k: nat)
    requires ValidTerms(H, t) && Countable(t) && i < t.identity.entrantCount && k < t.identity.entrantCount
    ensures t.venues[i].poolId == t.venues[k].poolId ==> i == k
  {
    hide ValidVenue;
    assert k < i ==> t.venues[k].poolId != t.venues[i].poolId;
    assert i < k ==> t.venues[i].poolId != t.venues[k].poolId;
  }
}
