/** The race terms: structural validation, the coverage mask and the 4,352-byte ABI form. */
module VolumeTerms {
  import opened Prelude
  import opened Uint
  import opened AbiWords
  import opened WordReaders
  import BigEndian

  const MAX_ENTRANTS: nat := 8
  const MIN_ENTRANTS: nat := 3
  const VENUE_V4_POOL: byte := 1
  const DYNAMIC_FEE_FLAG: nat := 0x800000
  const CHAIN_ID: nat := 46630
  const TERMS_ABI_BYTES: nat := 4352

  datatype Venue = Venue(
    kind: byte, account: Address, accountCodeHash: Hash, currency0: Address, currency1: Address,
    fee: u32, tickSpacing: i32, hooks: Address, hookCodeHash: Hash, poolId: Hash,
    quoteAsset: Address, minNotional: Word)

  /** The content of an unused venue slot. */
  predicate IsDefault(v: Venue) {
    && v.kind == 0 && v.account == ZeroAddress() && v.accountCodeHash == ZeroWord()
    && v.currency0 == ZeroAddress() && v.currency1 == ZeroAddress() && v.fee == 0 && v.tickSpacing == 0
    && v.hooks == ZeroAddress() && v.hookCodeHash == ZeroWord() && v.poolId == ZeroWord()
    && v.quoteAsset == ZeroAddress() && v.minNotional == ZeroWord()
  }

  /** The scalar fields before the entrants. */
  datatype Identity = Identity(
    domain: Hash, rulesHash: Hash, proofMethodId: Hash, chainId: u64, controller: Address,
    adapter: Address, pool: Address, raceId: Word, headerFormat: byte, entrantCount: byte)

  /** The block heights after the venues. */
  datatype Schedule = Schedule(
    startBlock: u64, snapshotBlock: u64, bettingCutoff: u64, confirmationBlocks: u64,
    quietBlocks: u64, submissionDeadline: u64, terminalExpiry: u64)

  /** The remaining fields. */
  datatype Services = Services(
    history: Address, historyCodeHash: Hash, historyWindow: u64, wrappedNative: Address,
    wrappedNativeCodeHash: Hash, quoteAsset: Address, quoteDecimals: byte, collateral: Address,
    collateralDecimals: byte, economicPolicyHash: Hash, proofSuiteHash: Hash, sp1Verifier: Address,
    sp1VerifierCodeHash: Hash, circuitIdentity: Hash)

  /** Always eight entrant and eight venue slots; the slots past the count are padding. */
  datatype Terms = Terms(
    identity: Identity, entrants: seq<Address>, entrantsHash: Hash, venues: seq<Venue>,
    schedule: Schedule, services: Services)
  {
    predicate Sized() {
      |entrants| == 8 && |venues| == 8
    }
  }

  // ----- the coverage mask -----

  function Pow2(k: nat): (p: nat)
    ensures p > 0
  {
    if k == 0 then 1 else 2 * Pow2(k - 1)
  }

  predicate Covers(mask: byte, i: nat) {
    mask / Pow2(i) % 2 == 1
  }

  /** Non-empty and inside the lowest `count` bits. */
  function ValidateMask(mask: byte, count: byte): Result<(), CoreError> {
    if !(MIN_ENTRANTS <= count <= MAX_ENTRANTS) then Err(Invalid)
    else if mask == 0 || mask / Pow2(count) != 0 then Err(Invalid)
    else Ok(())
  }

  /** An accepted mask covers some entrant, and entrants only. */
  lemma MaskCoversEntrants(mask: byte, count: byte)
    ensures ValidateMask(mask, count).Ok? <==>
            && MIN_ENTRANTS <= count <= MAX_ENTRANTS
            && (exists i :: 0 <= i < 8 && Covers(mask, i))
            && (forall i :: count <= i < 8 ==> !Covers(mask, i))
  {
    MaskBits(mask, 0);
    assert Pow2(0) == 1;
    if MIN_ENTRANTS <= count <= MAX_ENTRANTS {
      MaskBits(mask, count);
    }
  }

  lemma {:induction false} MaskBits(mask: byte, low: nat)
    requires low <= 8
    ensures mask / Pow2(low) == 0 <==> forall i :: low <= i < 8 ==> !Covers(mask, i)
    decreases 8 - low
  {
    if low == 8 {
      assert Pow2(4) == 16;
      assert Pow2(8) == 256;
    } else {
      MaskBits(mask, low + 1);
      HalfQuotient(mask, Pow2(low));
      assert Covers(mask, low) || mask / Pow2(low) % 2 == 0;
    }
  }

  lemma HalfQuotient(n: nat, p: nat)
    requires p > 0
    ensures n / p == 2 * (n / (2 * p)) + n / p % 2
  {
    var q := n / p;
    assert n == q * p + n % p;
    assert q == 2 * (q / 2) + q % 2;
    var h, b := q / 2, q % 2;
    assert q * p == h * (2 * p) + b * p;
    QuotientIs(n, 2 * p, h, b * p + n % p);
  }

  lemma QuotientIs(n: nat, d: nat, q: nat, r: nat)
    requires d > 0 && n == q * d + r && r < d
    ensures n / d == q
  {
    BigEndian.LeadingDigit(n / d, q, d, n % d, r);
    BigEndian.LeadingDigit(q, n / d, d, r, n % d);
  }

  // ----- validity -----

  predicate Encodable(v: Venue) {
    v.fee <= 0xff_ffff && InSigned(v.tickSpacing, 3)
  }

  function PoolKeyWords(v: Venue): seq<Word>
    requires Encodable(v)
  {
    [AddressWord(v.currency0), AddressWord(v.currency1), UintWord(v.fee), SignedWord(v.tickSpacing, 3),
     AddressWord(v.hooks)]
  }

  function PoolKeyHash(H: Keccak, v: Venue): Result<Hash, CoreError> {
    if !Encodable(v) then Err(Invalid) else Ok(H(Flatten(PoolKeyWords(v))))
  }

  function ActiveEntrantsHash(H: Keccak, entrants: seq<Address>): Hash {
    H(Flatten([UintWord(32), UintWord(|entrants|)] + AddressWords(entrants)))
  }

  /** The pool currency that is not the entrant token, native zero included. */
  function RawQuote(token: Address, v: Venue): Address {
    if token == v.currency0 then v.currency1 else v.currency0
  }

  /** The native currency is accounted in the wrapped native token. */
  function QuoteOf(raw: Address, wrapped: Address): Address {
    if raw == ZeroAddress() then wrapped else raw
  }

  predicate ValidVenue(H: Keccak, t: Terms, token: Address, v: Venue) {
    && token != ZeroAddress()
    && v.kind == VENUE_V4_POOL
    && v.account != ZeroAddress() && v.accountCodeHash != ZeroWord()
    && v.hooks != ZeroAddress() && v.hookCodeHash != ZeroWord() && v.minNotional != ZeroWord()
    && LexLess(v.currency0, v.currency1) && (token == v.currency0 || token == v.currency1)
    && v.fee < DYNAMIC_FEE_FLAG
    && PoolKeyHash(H, v) == Ok(v.poolId)
    && QuoteOf(RawQuote(token, v), t.services.wrappedNative) == t.services.quoteAsset == v.quoteAsset
    && (RawQuote(token, v) == ZeroAddress() ==> t.services.quoteDecimals == 18)
  }

  predicate ValidIdentity(id: Identity) {
    && MIN_ENTRANTS <= id.entrantCount <= MAX_ENTRANTS
    && id.chainId == CHAIN_ID && id.headerFormat == 0
    && id.raceId != ZeroWord()
    && id.controller != ZeroAddress() && id.adapter != ZeroAddress() && id.pool != ZeroAddress()
    && id.domain != ZeroWord() && id.rulesHash != ZeroWord() && id.proofMethodId != ZeroWord()
  }

  predicate ValidServices(s: Services) {
    && s.history != ZeroAddress() && s.wrappedNative != ZeroAddress() && s.quoteAsset != ZeroAddress()
    && s.collateral != ZeroAddress() && s.sp1Verifier != ZeroAddress()
    && s.historyCodeHash != ZeroWord() && s.wrappedNativeCodeHash != ZeroWord()
    && s.economicPolicyHash != ZeroWord() && s.proofSuiteHash != ZeroWord()
    && s.sp1VerifierCodeHash != ZeroWord() && s.circuitIdentity != ZeroWord()
  }

  predicate ValidTiming(s: Schedule, historyWindow: u64) {
    && s.startBlock < s.snapshotBlock && s.startBlock < s.bettingCutoff <= s.snapshotBlock
    && s.quietBlocks != 0 && historyWindow != 0
    && s.snapshotBlock + s.confirmationBlocks < U64_LIMIT
    && s.submissionDeadline + s.quietBlocks < U64_LIMIT
    && s.snapshotBlock + historyWindow < U64_LIMIT
    && s.snapshotBlock + s.confirmationBlocks <= s.submissionDeadline
    && s.submissionDeadline + s.quietBlocks < s.terminalExpiry
    && s.submissionDeadline < s.snapshotBlock + historyWindow
  }

  ghost predicate ValidTerms(H: Keccak, t: Terms) {
    && t.Sized() && ValidIdentity(t.identity) && ValidServices(t.services)
    && ValidTiming(t.schedule, t.services.historyWindow)
    && (forall i :: t.identity.entrantCount <= i < 8 ==> t.entrants[i] == ZeroAddress() && IsDefault(t.venues[i]))
    && ActiveEntrantsHash(H, t.entrants[..t.identity.entrantCount]) == t.entrantsHash
    && (forall i :: 0 <= i < t.identity.entrantCount ==> ValidVenue(H, t, t.entrants[i], t.venues[i]))
    && (forall i, j :: 0 <= i < j < t.identity.entrantCount ==>
          t.entrants[i] != t.entrants[j] && t.venues[i].poolId != t.venues[j].poolId)
  }

  method ValidateScalars(t: Terms) returns (r: Result<(), CoreError>)
    ensures r.Ok? <==>
            ValidIdentity(t.identity) && ValidServices(t.services)
            && ValidTiming(t.schedule, t.services.historyWindow)
  {
    var id, s, at := t.identity, t.services, t.schedule;
    if !(MIN_ENTRANTS <= id.entrantCount <= MAX_ENTRANTS) {
      return Err(Invalid);
    }
    if id.chainId != CHAIN_ID || id.headerFormat != 0 || id.raceId == ZeroWord() {
      return Err(Invalid);
    }
    if ZeroAddress() in [id.controller, id.adapter, id.pool, s.history, s.wrappedNative, s.quoteAsset,
                        s.collateral, s.sp1Verifier] {
      return Err(Invalid);
    }
    if ZeroWord() in [id.domain, id.rulesHash, id.proofMethodId, s.historyCodeHash, s.wrappedNativeCodeHash,
                     s.economicPolicyHash, s.proofSuiteHash, s.sp1VerifierCodeHash, s.circuitIdentity] {
      return Err(Invalid);
    }
    if at.startBlock >= at.snapshotBlock || at.bettingCutoff <= at.startBlock
       || at.bettingCutoff > at.snapshotBlock || at.quietBlocks == 0 || s.historyWindow == 0 {
      return Err(Invalid);
    }
    var ready, quiet, historyEnd := at.snapshotBlock + at.confirmationBlocks,
      at.submissionDeadline + at.quietBlocks, at.snapshotBlock + s.historyWindow;
    if ready >= U64_LIMIT || quiet >= U64_LIMIT || historyEnd >= U64_LIMIT {
      return Err(Overflow);
    }
    if ready > at.submissionDeadline || quiet >= at.terminalExpiry || at.submissionDeadline >= historyEnd {
      return Err(Invalid);
    }
    r := Ok(());
  }

  /** The checks of one active slot against the slots before it. */
  method ValidateSlot(H: Keccak, t: Terms, i: nat) returns (r: Result<(), CoreError>)
    requires t.Sized() && i < 8
    ensures r.Ok? <==>
            && ValidVenue(H, t, t.entrants[i], t.venues[i])
            && (forall j :: 0 <= j < i ==> t.entrants[j] != t.entrants[i] && t.venues[j].poolId != t.venues[i].poolId)
  {
    hide LexLess;
    hide PoolKeyHash;
    var token, v := t.entrants[i], t.venues[i];
    if token == ZeroAddress() || token in t.entrants[..i] {
      return Err(Invalid);
    }
    if v.kind != VENUE_V4_POOL {
      return Err(UnsupportedVenue(v.kind));
    }
    if v.account == ZeroAddress() || v.accountCodeHash == ZeroWord() || v.hooks == ZeroAddress()
       || v.hookCodeHash == ZeroWord() || v.minNotional == ZeroWord() {
      return Err(Invalid);
    }
    if !LexLess(v.currency0, v.currency1) || (token != v.currency0 && token != v.currency1) {
      return Err(Invalid);
    }
    if v.fee >= DYNAMIC_FEE_FLAG || PoolKeyHash(H, v) != Ok(v.poolId) {
      return Err(Invalid);
    }
    if exists j :: 0 <= j < i && t.venues[j].poolId == v.poolId {
      return Err(Invalid);
    }
    var rawQuote := RawQuote(token, v);
    var quote := QuoteOf(rawQuote, t.services.wrappedNative);
    if quote != t.services.quoteAsset || v.quoteAsset != quote {
      return Err(Invalid);
    }
    if rawQuote == ZeroAddress() && t.services.quoteDecimals != 18 {
      return Err(Invalid);
    }
    assert forall j :: 0 <= j < i ==> t.entrants[..i][j] == t.entrants[j];
    r := Ok(());
  }

  /** Validation accepts exactly the valid terms. */
  method Validate(H: Keccak, t: Terms) returns (r: Result<(), CoreError>)
    requires t.Sized()
    ensures r.Ok? <==> ValidTerms(H, t)
  {
    hide ValidVenue;
    hide ValidIdentity;
    hide ValidServices;
    hide ValidTiming;
    hide ActiveEntrantsHash;
    var scalars := ValidateScalars(t);
    if scalars.Err? {
      return scalars;
    }
    var n := t.identity.entrantCount;
    CountInRange(t.identity);
    if exists i :: n <= i < 8 && (t.entrants[i] != ZeroAddress() || !IsDefault(t.venues[i])) {
      return Err(NonCanonical);
    }
    if ActiveEntrantsHash(H, t.entrants[..n]) != t.entrantsHash {
      return Err(Invalid);
    }
    for i := 0 to n
      invariant forall j :: 0 <= j < i ==> ValidVenue(H, t, t.entrants[j], t.venues[j])
      invariant forall j, k :: 0 <= j < k < i ==>
                  t.entrants[j] != t.entrants[k] && t.venues[j].poolId != t.venues[k].poolId
    {
      var slot := ValidateSlot(H, t, i);
      if slot.Err? {
        return slot;
      }
    }
    r := Ok(());
  }

  lemma CountInRange(id: Identity)
    requires ValidIdentity(id)
    ensures 3 <= id.entrantCount <= 8
  {
  }

  // ----- the ABI form -----

  function VenueWords(v: Venue): (ws: seq<Word>)
    requires Encodable(v)
    ensures |ws| == 12
  {
    [UintWord(v.kind), AddressWord(v.account), v.accountCodeHash, AddressWord(v.currency0),
     AddressWord(v.currency1), UintWord(v.fee), SignedWord(v.tickSpacing, 3), AddressWord(v.hooks),
     v.hookCodeHash, v.poolId, AddressWord(v.quoteAsset), v.minNotional]
  }

  function IdentityWords(id: Identity): (ws: seq<Word>)
    ensures |ws| == 10
  {
    [id.domain, id.rulesHash, id.proofMethodId, UintWord(id.chainId), AddressWord(id.controller),
     AddressWord(id.adapter), AddressWord(id.pool), id.raceId, UintWord(id.headerFormat), UintWord(id.entrantCount)]
  }

  function ScheduleWords(s: Schedule): (ws: seq<Word>)
    ensures |ws| == 7
  {
    [UintWord(s.startBlock), UintWord(s.snapshotBlock), UintWord(s.bettingCutoff), UintWord(s.confirmationBlocks),
     UintWord(s.quietBlocks), UintWord(s.submissionDeadline), UintWord(s.terminalExpiry)]
  }

  function ServicesWords(s: Services): (ws: seq<Word>)
    ensures |ws| == 14
  {
    [AddressWord(s.history), s.historyCodeHash, UintWord(s.historyWindow), AddressWord(s.wrappedNative),
     s.wrappedNativeCodeHash, AddressWord(s.quoteAsset), UintWord(s.quoteDecimals), AddressWord(s.collateral),
     UintWord(s.collateralDecimals), s.economicPolicyHash, s.proofSuiteHash, AddressWord(s.sp1Verifier),
     s.sp1VerifierCodeHash, s.circuitIdentity]
  }

  predicate AllEncodable(venues: seq<Venue>) {
    forall i :: 0 <= i < |venues| ==> Encodable(venues[i])
  }

  function VenuesWords(venues: seq<Venue>): (ws: seq<Word>)
    requires AllEncodable(venues)
    ensures |ws| == 12 * |venues|
  {
    if venues == [] then [] else VenuesWords(venues[..|venues| - 1]) + VenueWords(venues[|venues| - 1])
  }

  function TermsWords(t: Terms): (ws: seq<Word>)
    requires t.Sized() && AllEncodable(t.venues)
    ensures |ws| == 136
  {
    IdentityWords(t.identity) + (AddressWords(t.entrants) + ([t.entrantsHash] +
      (VenuesWords(t.venues) + (ScheduleWords(t.schedule) + ServicesWords(t.services)))))
  }

  /** The encoding of checked terms. */
  function TermsBytes(t: Terms): (bs: Bytes)
    requires t.Sized() && AllEncodable(t.venues)
    ensures |bs| == TERMS_ABI_BYTES
  {
    Flatten(TermsWords(t))
  }

  lemma ValidEncodable(H: Keccak, t: Terms)
    requires ValidTerms(H, t)
    ensures AllEncodable(t.venues)
  {
    hide TermsWords;
    forall i | 0 <= i < 8 ensures Encodable(t.venues[i]) {
      Int24Range(0);
      if i < t.identity.entrantCount {
        assert ValidVenue(H, t, t.entrants[i], t.venues[i]);
      }
    }
  }
}
