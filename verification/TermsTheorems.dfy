/** What makes terms valid, stated from the outside: by the words of their encoding, by the schedules that
    are just possible, and by the independent choices all valid terms are assembled from. */
module TermsTheorems {
  import opened Prelude
  import opened Uint
  import opened AbiWords
  import opened WordReaders
  import opened VolumeTerms
  import BigEndian

  // ----- pool ids and the entrants hash -----

  /** The hashed pool key is five words from which every field is read back. */
  lemma PoolKeyFields(v: Venue)
    requires Encodable(v)
    ensures var data := Flatten(PoolKeyWords(v));
            && |data| == 160
            && DecodeAddress(WordAt(data, 0, 0)) == Ok(v.currency0)
            && DecodeAddress(WordAt(data, 0, 1)) == Ok(v.currency1)
            && U24Of(WordAt(data, 0, 2)) == Ok(v.fee)
            && Int24Of(WordAt(data, 0, 3)) == Ok(v.tickSpacing)
            && DecodeAddress(WordAt(data, 0, 4)) == Ok(v.hooks)
  {
    var ws := PoolKeyWords(v);
    var data := Flatten(ws);
    assert |data| == 160;
    FlattenAt(ws, data);
    hide Flatten;
    assert WordAt(data, 0, 0) == ws[0] && WordAt(data, 0, 1) == ws[1] && WordAt(data, 0, 2) == ws[2]
           && WordAt(data, 0, 3) == ws[3] && WordAt(data, 0, 4) == ws[4];
    AddressCanonical(ws[0], v.currency0);
    AddressCanonical(ws[1], v.currency1);
    U24Canonical(ws[2], v.fee);
    Int24Canonical(ws[3], v.tickSpacing);
    AddressCanonical(ws[4], v.hooks);
    hide U24Of;
    hide Int24Of;
    hide DecodeAddress;
    hide AddressWord;
    hide UintWord;
    hide SignedWord;
  }

  predicate SamePool(v: Venue, w: Venue) {
    && v.currency0 == w.currency0 && v.currency1 == w.currency1 && v.fee == w.fee
    && v.tickSpacing == w.tickSpacing && v.hooks == w.hooks
  }

  /** One pool id has one pool key, or the two encoded keys collide. */
  lemma PoolIdBinds(H: Keccak, v: Venue, w: Venue)
    requires PoolKeyHash(H, v).Ok? && PoolKeyHash(H, v) == PoolKeyHash(H, w)
    ensures SamePool(v, w) || Collides(H, {Flatten(PoolKeyWords(v)), Flatten(PoolKeyWords(w))})
  {
    PoolKeyFields(v);
    PoolKeyFields(w);
    hide PoolKeyWords;
    hide Flatten;
    hide U24Of;
    hide Int24Of;
    hide DecodeAddress;
  }

  /** The hashed entrant list is an offset of 32, the length and one word for each address. */
  lemma EntrantListFields(entrants: seq<Address>)
    requires |entrants| < U64_LIMIT
    ensures var data := Flatten([UintWord(32), UintWord(|entrants|)] + AddressWords(entrants));
            && |data| == 64 + 32 * |entrants|
            && WordValue(WordAt(data, 0, 0)) == 32 && WordValue(WordAt(data, 0, 1)) == |entrants|
            && AddressesOf(data, 64, |entrants|) == Ok(entrants)
  {
    var n := |entrants|;
    var data := Flatten([UintWord(32), UintWord(n)] + AddressWords(entrants));
    ListStarts(UintWord(32), UintWord(n), AddressWords(entrants));
    AddressesCanonical(data, 64, n, entrants);
    SmallWord(32);
    SmallWord(n);
    hide *;
  }

  /** Two words before others stand first; the others follow. */
  lemma ListStarts(first: Word, second: Word, rest: seq<Word>)
    ensures var data := Flatten([first, second] + rest);
            && |data| == 64 + 32 * |rest|
            && WordAt(data, 0, 0) == first && WordAt(data, 0, 1) == second && At(data, 64, rest)
  {
    var ws := [first, second];
    var data := Flatten(ws + rest);
    FlattenAt(ws + rest, data);
    AtConcat(data, 0, ws, rest);
    hide Flatten;
    assert WordAt(data, 0, 0) == ws[0] && WordAt(data, 0, 1) == ws[1];
  }

  lemma SmallWord(n: u64)
    ensures WordValue(UintWord(n)) == n
  {
    BigEndian.PowersOf256();
    BigEndian.PowMonotone(8, 32);
    ValueOfWord(n);
    hide BigEndian.Pow256;
  }

  /** One entrants hash has one list, or the two encoded lists collide. */
  lemma EntrantsHashBinds(H: Keccak, a: seq<Address>, b: seq<Address>)
    requires |a| < U64_LIMIT && |b| < U64_LIMIT && ActiveEntrantsHash(H, a) == ActiveEntrantsHash(H, b)
    ensures a == b || Collides(H, {Flatten([UintWord(32), UintWord(|a|)] + AddressWords(a)),
                                   Flatten([UintWord(32), UintWord(|b|)] + AddressWords(b))})
  {
    EntrantListFields(a);
    EntrantListFields(b);
    hide Flatten;
    hide UintWord;
    hide AddressWords;
    hide AddressesOf;
    hide WordValue;
  }

  // ----- the words of the encoding -----

  /** Where every part of the terms stands among the 136 words. */
  lemma TermsLayout(t: Terms)
    requires t.Sized() && AllEncodable(t.venues)
    ensures forall k :: 0 <= k < 10 ==> TermsWords(t)[k] == IdentityWords(t.identity)[k]
    ensures forall i :: 0 <= i < 8 ==> TermsWords(t)[10 + i] == AddressWord(t.entrants[i])
    ensures TermsWords(t)[18] == t.entrantsHash
    ensures forall k :: 0 <= k < 96 ==> TermsWords(t)[19 + k] == VenuesWords(t.venues)[k]
    ensures forall k :: 0 <= k < 7 ==> TermsWords(t)[115 + k] == ScheduleWords(t.schedule)[k]
    ensures forall k :: 0 <= k < 14 ==> TermsWords(t)[122 + k] == ServicesWords(t.services)[k]
  {
    hide IdentityWords;
    hide VenuesWords;
    hide ScheduleWords;
    hide ServicesWords;
    hide AddressWord;
  }

  lemma {:induction false} VenueWordsAt(venues: seq<Venue>, i: nat, k: nat)
    requires AllEncodable(venues) && i < |venues| && k < 12
    ensures VenuesWords(venues)[12 * i + k] == VenueWords(venues[i])[k]
  {
    hide VenueWords;
    if i < |venues| - 1 {
      VenueWordsAt(venues[..|venues| - 1], i, k);
    }
  }

  lemma ZeroWords(a: Address, n: u64)
    ensures AddressWord(a) == ZeroWord() <==> a == ZeroAddress()
    ensures UintWord(n) == ZeroWord() <==> n == 0
  {
    hide BigEndian.Fixed;
    assert AddressWord(a)[12..] == a && ZeroWord()[12..] == ZeroAddress();
    assert Fill(12, 0) + ZeroAddress() == ZeroWord();
    SmallWord(n);
    ZeroFill(32, []);
    assert Fill(32, 0) + [] == ZeroWord();
    WordOfValue(ZeroWord());
  }

  /** The word of the encoding is not zero. */
  predicate Set(t: Terms, k: nat)
    requires t.Sized() && AllEncodable(t.venues) && k < 136
  {
    TermsWords(t)[k] != ZeroWord()
  }

  /** The checks of the identity and the services, read off the encoding: which words must not be zero,
      the chain id, the header format and the number of entrants. */
  lemma ScalarsByWord(t: Terms)
    requires t.Sized() && AllEncodable(t.venues)
    ensures ValidIdentity(t.identity) && ValidServices(t.services) <==>
            && Set(t, 0) && Set(t, 1) && Set(t, 2) && Set(t, 4) && Set(t, 5) && Set(t, 6) && Set(t, 7)
            && WordValue(TermsWords(t)[3]) == 46630 && !Set(t, 8) && 3 <= WordValue(TermsWords(t)[9]) <= 8
            && Set(t, 122) && Set(t, 123) && Set(t, 125) && Set(t, 126) && Set(t, 127) && Set(t, 129)
            && Set(t, 131) && Set(t, 132) && Set(t, 133) && Set(t, 134) && Set(t, 135)
  {
    TermsLayout(t);
    hide TermsWords;
    hide AddressWord;
    hide UintWord;
    hide WordValue;
    hide ZeroWord;
    hide ZeroAddress;
    IdentityByWord(t.identity);
    ServicesByWord(t.services);
    hide ValidIdentity;
    hide ValidServices;
    hide IdentityWords;
    hide ServicesWords;
  }

  lemma IdentityByWord(id: Identity)
    ensures var ws := IdentityWords(id);
            ValidIdentity(id) <==>
            && ws[0] != ZeroWord() && ws[1] != ZeroWord() && ws[2] != ZeroWord() && ws[4] != ZeroWord()
            && ws[5] != ZeroWord() && ws[6] != ZeroWord() && ws[7] != ZeroWord()
            && WordValue(ws[3]) == 46630 && ws[8] == ZeroWord() && 3 <= WordValue(ws[9]) <= 8
  {
    ZeroWords(id.controller, id.headerFormat);
    ZeroWords(id.adapter, 0);
    ZeroWords(id.pool, 0);
    SmallWord(id.chainId);
    SmallWord(id.entrantCount);
    hide AddressWord;
    hide UintWord;
    hide WordValue;
    hide ZeroWord;
    hide ZeroAddress;
    IdentityWordsAt(id);
    hide IdentityWords;
  }

  lemma IdentityWordsAt(id: Identity)
    ensures var ws := IdentityWords(id);
            && ws[0] == id.domain && ws[1] == id.rulesHash && ws[2] == id.proofMethodId
            && ws[3] == UintWord(id.chainId) && ws[4] == AddressWord(id.controller)
            && ws[5] == AddressWord(id.adapter) && ws[6] == AddressWord(id.pool) && ws[7] == id.raceId
            && ws[8] == UintWord(id.headerFormat) && ws[9] == UintWord(id.entrantCount)
  {
    hide AddressWord;
    hide UintWord;
  }

  lemma ServicesByWord(s: Services)
    ensures var ws := ServicesWords(s);
            ValidServices(s) <==>
            && ws[0] != ZeroWord() && ws[1] != ZeroWord() && ws[3] != ZeroWord() && ws[4] != ZeroWord()
            && ws[5] != ZeroWord() && ws[7] != ZeroWord() && ws[9] != ZeroWord() && ws[10] != ZeroWord()
            && ws[11] != ZeroWord() && ws[12] != ZeroWord() && ws[13] != ZeroWord()
  {
    ZeroWords(s.history, 0);
    ZeroWords(s.wrappedNative, 0);
    ZeroWords(s.quoteAsset, 0);
    ZeroWords(s.collateral, 0);
    ZeroWords(s.sp1Verifier, 0);
    ServicesWordsAt(s);
    hide AddressWord;
    hide UintWord;
    hide ZeroWord;
    hide ZeroAddress;
    hide ServicesWords;
  }

  lemma ServicesWordsAt(s: Services)
    ensures var ws := ServicesWords(s);
            && ws[0] == AddressWord(s.history) && ws[1] == s.historyCodeHash && ws[3] == AddressWord(s.wrappedNative)
            && ws[4] == s.wrappedNativeCodeHash && ws[5] == AddressWord(s.quoteAsset)
            && ws[7] == AddressWord(s.collateral) && ws[9] == s.economicPolicyHash && ws[10] == s.proofSuiteHash
            && ws[11] == AddressWord(s.sp1Verifier) && ws[12] == s.sp1VerifierCodeHash && ws[13] == s.circuitIdentity
  {
    hide AddressWord;
    hide UintWord;
  }

  // ----- schedules -----

  /** The shortest schedule for a start, a number of confirmations and a quiet time. */
  function Tight(start: nat, confirmations: nat, quiet: nat): Schedule
    requires start + 2 + confirmations + quiet < U64_LIMIT
  {
    Schedule(start, start + 1, start + 1, confirmations, quiet, start + 1 + confirmations,
             start + 2 + confirmations + quiet)
  }

  /** The shortest schedules are valid with the shortest history window, and no height in them can move
      by one: every bound of the timing rule is met with equality. */
  lemma TightSchedule(start: nat, confirmations: nat, quiet: nat)
    requires start + 2 + confirmations + quiet < U64_LIMIT && quiet > 0
    ensures var s, window := Tight(start, confirmations, quiet), confirmations + 1;
            && ValidTiming(s, window)
            && !ValidTiming(s.(startBlock := start + 1), window)
            && !ValidTiming(s.(snapshotBlock := start), window)
            && !ValidTiming(s.(bettingCutoff := start), window)
            && !ValidTiming(s.(bettingCutoff := start + 2), window)
            && !ValidTiming(s.(quietBlocks := 0), window)
            && !ValidTiming(s.(submissionDeadline := start + confirmations), window)
            && !ValidTiming(s.(submissionDeadline := start + 2 + confirmations), window)
            && !ValidTiming(s.(terminalExpiry := start + 1 + confirmations + quiet), window)
            && !ValidTiming(s, confirmations)
            && !ValidTiming(s, 0)
  {
  }

  /** Room can only help: an earlier start, a later expiry or a wider window keeps a schedule valid. */
  lemma RoomKeepsValid(s: Schedule, window: u64, start: u64, expiry: u64, wider: u64)
    requires ValidTiming(s, window)
    requires start <= s.startBlock && expiry >= s.terminalExpiry && wider >= window
    ensures ValidTiming(s.(startBlock := start, terminalExpiry := expiry), wider) <==>
            s.snapshotBlock + wider < U64_LIMIT
  {
  }

  // ----- assembling terms -----

  /** What a race chooses for one entrant. */
  datatype Listing = Listing(
    token: Address, account: Address, accountCodeHash: Hash, fee: u32, tickSpacing: i32, hooks: Address,
    hookCodeHash: Hash, minNotional: Word, native: bool)

  /** A token paired with the native currency, accounted in its wrapper, or with the quote asset. */
  predicate PlainListing(s: Services, l: Listing) {
    && l.token != ZeroAddress() && l.account != ZeroAddress() && l.hooks != ZeroAddress()
    && l.accountCodeHash != ZeroWord() && l.hookCodeHash != ZeroWord() && l.minNotional != ZeroWord()
    && l.fee < 0x80_0000 && -0x80_0000 <= l.tickSpacing < 0x80_0000
    && (if l.native then s.quoteAsset == s.wrappedNative && s.quoteDecimals == 18 else l.token != s.quoteAsset)
  }

  function Paired(s: Services, l: Listing): Address {
    if l.native then ZeroAddress() else s.quoteAsset
  }

  /** The venue of a listing: the two currencies in address order, and the id of their pool. */
  function VenueFor(H: Keccak, s: Services, l: Listing): Venue
    requires PlainListing(s, l)
  {
    Unpinned(s, l).(poolId := H(Flatten(PoolKeyWords(Unpinned(s, l)))))
  }

  function Unpinned(s: Services, l: Listing): (v: Venue)
    ensures PlainListing(s, l) ==> Encodable(v)
  {
    Int24Range(l.tickSpacing);
    var first := LexLess(l.token, Paired(s, l));
    Venue(VENUE_V4_POOL, l.account, l.accountCodeHash, if first then l.token else Paired(s, l),
          if first then Paired(s, l) else l.token, l.fee, l.tickSpacing, l.hooks, l.hookCodeHash, ZeroWord(),
          s.quoteAsset, l.minNotional)
  }

  /** The choices behind a venue. */
  function ListingOf(token: Address, v: Venue): Listing {
    Listing(token, v.account, v.accountCodeHash, v.fee, v.tickSpacing, v.hooks, v.hookCodeHash, v.minNotional,
            RawQuote(token, v) == ZeroAddress())
  }

  lemma SamePoolKey(v: Venue, id: Hash)
    requires Encodable(v)
    ensures Encodable(v.(poolId := id)) && PoolKeyWords(v.(poolId := id)) == PoolKeyWords(v)
  {
  }

  /** Every listing gives a valid venue. */
  lemma ListedVenueValid(H: Keccak, t: Terms, l: Listing)
    requires PlainListing(t.services, l) && t.services.quoteAsset != ZeroAddress()
    ensures ValidVenue(H, t, l.token, VenueFor(H, t.services, l))
  {
    var v := Unpinned(t.services, l);
    Int24Range(l.tickSpacing);
    SamePoolKey(v, H(Flatten(PoolKeyWords(v))));
    LexTotal(l.token, Paired(t.services, l));
    hide LexLess;
    hide Flatten;
    hide PoolKeyWords;
    hide ZeroAddress;
    hide ZeroWord;
    hide InSigned;
  }

  /** And every valid venue is that of its listing. */
  lemma ValidVenueListed(H: Keccak, t: Terms, token: Address, v: Venue)
    requires ValidVenue(H, t, token, v) && t.services.quoteAsset != ZeroAddress()
    ensures PlainListing(t.services, ListingOf(token, v))
    ensures v == VenueFor(H, t.services, ListingOf(token, v))
  {
    var l := ListingOf(token, v);
    Int24Range(v.tickSpacing);
    LexIrreflexive(v.currency0);
    LexAsymmetric(v.currency0, v.currency1);
    SamePoolKey(v, ZeroWord());
    hide LexLess;
    hide Flatten;
    hide PoolKeyWords;
    hide ZeroAddress;
    hide ZeroWord;
    hide InSigned;
    assert v.(poolId := ZeroWord()) == Unpinned(t.services, l);
  }

  lemma LexAsymmetric(a: seq<int>, b: seq<int>)
    ensures !(LexLess(a, b) && LexLess(b, a))
  {
    if LexLess(a, b) && LexLess(b, a) {
      LexTransitive(a, b, a);
      LexIrreflexive(a);
    }
  }

  function DefaultVenue(): Venue {
    Venue(0, ZeroAddress(), ZeroWord(), ZeroAddress(), ZeroAddress(), 0, 0, ZeroAddress(), ZeroWord(), ZeroWord(),
          ZeroAddress(), ZeroWord())
  }

  /** The independent choices of a race. */
  datatype Setup = Setup(identity: Identity, schedule: Schedule, services: Services, listings: seq<Listing>)

  predicate PlainSetup(r: Setup) {
    && ValidIdentity(r.identity) && ValidServices(r.services) && ValidTiming(r.schedule, r.services.historyWindow)
    && |r.listings| == r.identity.entrantCount
    && (forall i :: 0 <= i < |r.listings| ==> PlainListing(r.services, r.listings[i]))
    && forall i, j :: 0 <= i < j < |r.listings| ==> r.listings[i].token != r.listings[j].token
  }

  function Tokens(listings: seq<Listing>): (tokens: seq<Address>)
    ensures |tokens| == |listings|
  {
    seq(|listings|, i requires 0 <= i < |listings| => listings[i].token)
  }

  /** Fills in what the choices determine: padding, pool ids and the entrants hash. */
  function Assemble(H: Keccak, r: Setup): (t: Terms)
    requires PlainSetup(r)
    ensures t.Sized()
  {
    var n := |r.listings|;
    Terms(r.identity,
          seq(8, i requires 0 <= i < 8 => if i < n then r.listings[i].token else ZeroAddress()),
          ActiveEntrantsHash(H, Tokens(r.listings)),
          seq(8, i requires 0 <= i < 8 => if i < n then VenueFor(H, r.services, r.listings[i]) else DefaultVenue()),
          r.schedule, r.services)
  }

  /** The encoded pool keys of a race. */
  ghost function PoolKeys(r: Setup): set<Bytes>
    requires PlainSetup(r)
  {
    set i | 0 <= i < |r.listings| :: Flatten(PoolKeyWords(Unpinned(r.services, r.listings[i])))
  }

  /** Different tokens have different pools. */
  lemma PoolsDiffer(H: Keccak, r: Setup, i: nat, j: nat)
    requires PlainSetup(r) && i < |r.listings| && j < |r.listings|
    requires r.listings[i].token != r.listings[j].token && !Collides(H, PoolKeys(r))
    ensures VenueFor(H, r.services, r.listings[i]).poolId != VenueFor(H, r.services, r.listings[j]).poolId
  {
    var v, w := Unpinned(r.services, r.listings[i]), Unpinned(r.services, r.listings[j]);
    assert Flatten(PoolKeyWords(v)) in PoolKeys(r) && Flatten(PoolKeyWords(w)) in PoolKeys(r);
    PoolKeyFields(v);
    PoolKeyFields(w);
    CurrenciesDiffer(r.services, r.listings[i], r.listings[j]);
    hide PoolKeyWords;
    hide Flatten;
    hide Unpinned;
    hide DecodeAddress;
    hide U24Of;
    hide Int24Of;
  }

  lemma CurrenciesDiffer(s: Services, l: Listing, m: Listing)
    requires PlainListing(s, l) && PlainListing(s, m) && l.token != m.token && s.quoteAsset != ZeroAddress()
    ensures var v, w := Unpinned(s, l), Unpinned(s, m);
            v.currency0 != w.currency0 || v.currency1 != w.currency1
  {
    hide LexLess;
    hide ZeroAddress;
  }

  /** Whatever a race chooses, the assembled terms are valid, unless two of its pool keys collide. */
  lemma AssembledValid(H: Keccak, r: Setup)
    requires PlainSetup(r)
    ensures ValidTerms(H, Assemble(H, r)) || Collides(H, PoolKeys(r))
  {
    hide Assemble;
    hide ValidVenue;
    hide ValidIdentity;
    hide ValidServices;
    hide ValidTiming;
    hide IsDefault;
    hide PlainListing;
    hide ActiveEntrantsHash;
    if !Collides(H, PoolKeys(r)) {
      AssembledSlots(H, r);
      AssembledVenues(H, r);
    }
  }

  lemma AssembledVenues(H: Keccak, r: Setup)
    requires PlainSetup(r) && !Collides(H, PoolKeys(r))
    ensures var t, n := Assemble(H, r), |r.listings|;
            && n <= 8
            && (forall i :: 0 <= i < n ==> ValidVenue(H, t, t.entrants[i], t.venues[i]))
            && (forall i, j :: 0 <= i < j < n ==>
                  t.entrants[i] != t.entrants[j] && t.venues[i].poolId != t.venues[j].poolId)
  {
    AssembledSlots(H, r);
    var t, n := Assemble(H, r), |r.listings|;
    hide Assemble;
    hide ValidVenue;
    hide ValidIdentity;
    hide ValidTiming;
    hide PlainListing;
    hide VenueFor;
    hide ActiveEntrantsHash;
    forall i | 0 <= i < n ensures ValidVenue(H, t, t.entrants[i], t.venues[i]) {
      ListedVenueValid(H, t, r.listings[i]);
    }
    forall i, j | 0 <= i < j < n ensures t.venues[i].poolId != t.venues[j].poolId {
      PoolsDiffer(H, r, i, j);
    }
  }

  lemma AssembledSlots(H: Keccak, r: Setup)
    requires PlainSetup(r)
    ensures var t, n := Assemble(H, r), |r.listings|;
            && t.identity == r.identity && t.schedule == r.schedule && t.services == r.services
            && n == r.identity.entrantCount && n <= 8
            && t.entrantsHash == ActiveEntrantsHash(H, t.entrants[..n])
            && (forall i :: 0 <= i < n ==> t.entrants[i] == r.listings[i].token && t.venues[i] == VenueFor(H, r.services, r.listings[i]))
            && (forall i :: n <= i < 8 ==> t.entrants[i] == ZeroAddress() && IsDefault(t.venues[i]))
  {
    hide ValidTiming;
    hide PlainListing;
    hide VenueFor;
    hide ActiveEntrantsHash;
    hide ValidIdentity;
    CountInRange(r.identity);
    var t := Assemble(H, r);
    assert t.entrants[..|r.listings|] == Tokens(r.listings);
    forall i | |r.listings| <= i < 8 ensures IsDefault(t.venues[i]) {
      assert t.venues[i] == DefaultVenue();
    }
  }

  /** The choices behind valid terms. */
  function SetupOf(t: Terms): Setup
    requires t.Sized() && t.identity.entrantCount <= 8
  {
    Setup(t.identity, t.schedule, t.services,
         seq(t.identity.entrantCount, i requires 0 <= i < t.identity.entrantCount => ListingOf(t.entrants[i], t.venues[i])))
  }

  /** There are no other valid terms: all are assembled from their own choices. */
  lemma ValidAssembled(H: Keccak, t: Terms)
    requires ValidTerms(H, t)
    ensures t.identity.entrantCount <= 8 && PlainSetup(SetupOf(t)) && t == Assemble(H, SetupOf(t))
  {
    CountInRange(t.identity);
    var r, n := SetupOf(t), t.identity.entrantCount;
    hide ValidVenue;
    hide ValidIdentity;
    hide ValidTiming;
    hide PlainListing;
    hide VenueFor;
    hide ActiveEntrantsHash;
    forall i | 0 <= i < n
      ensures PlainListing(t.services, r.listings[i]) && t.venues[i] == VenueFor(H, t.services, r.listings[i])
    {
      assert ValidVenue(H, t, t.entrants[i], t.venues[i]);
      ValidVenueListed(H, t, t.entrants[i], t.venues[i]);
    }
    assert t.entrants[..n] == Tokens(r.listings);
    forall i | n <= i < 8 ensures t.venues[i] == DefaultVenue() {
      assert IsDefault(t.venues[i]);
    }
    assert t.entrants == Assemble(H, r).entrants && t.venues == Assemble(H, r).venues;
  }
}
