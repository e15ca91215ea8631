/** The ABI codec of the terms: one encoding per valid terms value, one value per accepted encoding. */
module TermsCodec {
  import opened Prelude
  import opened Uint
  import opened AbiWords
  import opened WordReaders
  import opened VolumeTerms

  function VenueOf(data: Bytes, pos: nat): Result<Venue, CoreError>
    requires pos + 32 * 12 <= |data|
  {
    var kind :- U8Of(WordAt(data, pos, 0));
    var account :- DecodeAddress(WordAt(data, pos, 1));
    var currency0 :- DecodeAddress(WordAt(data, pos, 3));
    var currency1 :- DecodeAddress(WordAt(data, pos, 4));
    var fee :- U24Of(WordAt(data, pos, 5));
    var tickSpacing :- Int24Of(WordAt(data, pos, 6));
    var hooks :- DecodeAddress(WordAt(data, pos, 7));
    var quoteAsset :- DecodeAddress(WordAt(data, pos, 10));
    Ok(Venue(
      kind, account, WordAt(data, pos, 2), currency0, currency1, fee, tickSpacing, hooks, WordAt(data, pos, 8),
      WordAt(data, pos, 9), quoteAsset, WordAt(data, pos, 11)))
  }

  lemma VenueCanonical(data: Bytes, pos: nat, v: Venue)
    requires pos + 32 * 12 <= |data|
    ensures VenueOf(data, pos) == Ok(v) <==> Encodable(v) && At(data, pos, VenueWords(v))
  {
    hide AddressWord;
    hide UintWord;
    hide SignedWord;
    hide DecodeAddress;
    hide Int24Of;
    hide U24Of;
    hide U8Of;
    Int24Canonical(WordAt(data, pos, 6), v.tickSpacing);
    U24Canonical(WordAt(data, pos, 5), v.fee);
    U8Canonical(WordAt(data, pos, 0), v.kind);
    AddressCanonical(WordAt(data, pos, 1), v.account);
    AddressCanonical(WordAt(data, pos, 3), v.currency0);
    AddressCanonical(WordAt(data, pos, 4), v.currency1);
    AddressCanonical(WordAt(data, pos, 7), v.hooks);
    AddressCanonical(WordAt(data, pos, 10), v.quoteAsset);
    if Encodable(v) {
      var ws := VenueWords(v);
      assert At(data, pos, ws) <==>
             WordAt(data, pos, 0) == ws[0] && WordAt(data, pos, 1) == ws[1] && WordAt(data, pos, 2) == ws[2]
             && WordAt(data, pos, 3) == ws[3] && WordAt(data, pos, 4) == ws[4] && WordAt(data, pos, 5) == ws[5]
             && WordAt(data, pos, 6) == ws[6] && WordAt(data, pos, 7) == ws[7] && WordAt(data, pos, 8) == ws[8]
             && WordAt(data, pos, 9) == ws[9] && WordAt(data, pos, 10) == ws[10]
             && WordAt(data, pos, 11) == ws[11];
    }
  }

  method ReadVenue(r: WordReader) returns (v: Result<Venue, CoreError>)
    requires r.Room(12)
    modifies r`position
    ensures v == VenueOf(r.data, old(r.position))
    ensures v.Ok? ==> r.position == old(r.position) + 32 * 12
  {
    hide DecodeAddress;
    hide Int24Of;
    hide U24Of;
    hide U8Of;
    var kind :- r.U8();
    var account :- r.Address();
    var accountCodeHash := r.Take();
    var currency0 :- r.Address();
    var currency1 :- r.Address();
    var fee :- r.U24();
    var tickSpacing :- r.Int24();
    var hooks :- r.Address();
    var hookCodeHash := r.Take();
    var poolId := r.Take();
    var quoteAsset :- r.Address();
    var minNotional := r.Take();
    v := Ok(Venue(
      kind, account, accountCodeHash, currency0, currency1, fee, tickSpacing, hooks, hookCodeHash, poolId,
      quoteAsset, minNotional));
  }

  function IdentityOf(data: Bytes, pos: nat): Result<Identity, CoreError>
    requires pos + 32 * 10 <= |data|
  {
    var chainId :- U64Of(WordAt(data, pos, 3));
    var controller :- DecodeAddress(WordAt(data, pos, 4));
    var adapter :- DecodeAddress(WordAt(data, pos, 5));
    var pool :- DecodeAddress(WordAt(data, pos, 6));
    var headerFormat :- U8Of(WordAt(data, pos, 8));
    var entrantCount :- U8Of(WordAt(data, pos, 9));
    Ok(Identity(
      WordAt(data, pos, 0), WordAt(data, pos, 1), WordAt(data, pos, 2), chainId, controller, adapter, pool,
      WordAt(data, pos, 7), headerFormat, entrantCount))
  }

  lemma IdentityCanonical(data: Bytes, pos: nat, v: Identity)
    requires pos + 32 * 10 <= |data|
    ensures IdentityOf(data, pos) == Ok(v) <==> At(data, pos, IdentityWords(v))
  {
    hide AddressWord;
    hide UintWord;
    hide SignedWord;
    hide DecodeAddress;
    hide U64Of;
    hide U8Of;
    U64Canonical(WordAt(data, pos, 3), v.chainId);
    AddressCanonical(WordAt(data, pos, 4), v.controller);
    AddressCanonical(WordAt(data, pos, 5), v.adapter);
    AddressCanonical(WordAt(data, pos, 6), v.pool);
    U8Canonical(WordAt(data, pos, 8), v.headerFormat);
    U8Canonical(WordAt(data, pos, 9), v.entrantCount);
    var ws := IdentityWords(v);
    assert At(data, pos, ws) <==>
           WordAt(data, pos, 0) == ws[0] && WordAt(data, pos, 1) == ws[1] && WordAt(data, pos, 2) == ws[2]
           && WordAt(data, pos, 3) == ws[3] && WordAt(data, pos, 4) == ws[4] && WordAt(data, pos, 5) == ws[5]
           && WordAt(data, pos, 6) == ws[6] && WordAt(data, pos, 7) == ws[7] && WordAt(data, pos, 8) == ws[8]
           && WordAt(data, pos, 9) == ws[9];
  }

  method ReadIdentity(r: WordReader) returns (v: Result<Identity, CoreError>)
    requires r.Room(10)
    modifies r`position
    ensures v == IdentityOf(r.data, old(r.position))
    ensures v.Ok? ==> r.position == old(r.position) + 32 * 10
  {
    hide DecodeAddress;
    hide U64Of;
    hide U8Of;
    var domain := r.Take();
    var rulesHash := r.Take();
    var proofMethodId := r.Take();
    var chainId :- r.U64();
    var controller :- r.Address();
    var adapter :- r.Address();
    var pool :- r.Address();
    var raceId := r.Take();
    var headerFormat :- r.U8();
    var entrantCount :- r.U8();
    v := Ok(Identity(
      domain, rulesHash, proofMethodId, chainId, controller, adapter, pool, raceId, headerFormat, entrantCount));
  }

  function ScheduleOf(data: Bytes, pos: nat): Result<Schedule, CoreError>
    requires pos + 32 * 7 <= |data|
  {
    var startBlock :- U64Of(WordAt(data, pos, 0));
    var snapshotBlock :- U64Of(WordAt(data, pos, 1));
    var bettingCutoff :- U64Of(WordAt(data, pos, 2));
    var confirmationBlocks :- U64Of(WordAt(data, pos, 3));
    var quietBlocks :- U64Of(WordAt(data, pos, 4));
    var submissionDeadline :- U64Of(WordAt(data, pos, 5));
    var terminalExpiry :- U64Of(WordAt(data, pos, 6));
    Ok(Schedule(
      startBlock, snapshotBlock, bettingCutoff, confirmationBlocks, quietBlocks, submissionDeadline,
      terminalExpiry))
  }

  lemma ScheduleCanonical(data: Bytes, pos: nat, v: Schedule)
    requires pos + 32 * 7 <= |data|
    ensures ScheduleOf(data, pos) == Ok(v) <==> At(data, pos, ScheduleWords(v))
  {
    hide AddressWord;
    hide UintWord;
    hide SignedWord;
    hide U64Of;
    U64Canonical(WordAt(data, pos, 0), v.startBlock);
    U64Canonical(WordAt(data, pos, 1), v.snapshotBlock);
    U64Canonical(WordAt(data, pos, 2), v.bettingCutoff);
    U64Canonical(WordAt(data, pos, 3), v.confirmationBlocks);
    U64Canonical(WordAt(data, pos, 4), v.quietBlocks);
    U64Canonical(WordAt(data, pos, 5), v.submissionDeadline);
    U64Canonical(WordAt(data, pos, 6), v.terminalExpiry);
    var ws := ScheduleWords(v);
    assert At(data, pos, ws) <==>
           WordAt(data, pos, 0) == ws[0] && WordAt(data, pos, 1) == ws[1] && WordAt(data, pos, 2) == ws[2]
           && WordAt(data, pos, 3) == ws[3] && WordAt(data, pos, 4) == ws[4] && WordAt(data, pos, 5) == ws[5]
           && WordAt(data, pos, 6) == ws[6];
  }

  method ReadSchedule(r: WordReader) returns (v: Result<Schedule, CoreError>)
    requires r.Room(7)
    modifies r`position
    ensures v == ScheduleOf(r.data, old(r.position))
    ensures v.Ok? ==> r.position == old(r.position) + 32 * 7
  {
    hide U64Of;
    var startBlock :- r.U64();
    var snapshotBlock :- r.U64();
    var bettingCutoff :- r.U64();
    var confirmationBlocks :- r.U64();
    var quietBlocks :- r.U64();
    var submissionDeadline :- r.U64();
    var terminalExpiry :- r.U64();
    v := Ok(Schedule(
      startBlock, snapshotBlock, bettingCutoff, confirmationBlocks, quietBlocks, submissionDeadline,
      terminalExpiry));
  }

  function ServicesOf(data: Bytes, pos: nat): Result<Services, CoreError>
    requires pos + 32 * 14 <= |data|
  {
    var history :- DecodeAddress(WordAt(data, pos, 0));
    var historyWindow :- U64Of(WordAt(data, pos, 2));
    var wrappedNative :- DecodeAddress(WordAt(data, pos, 3));
    var quoteAsset :- DecodeAddress(WordAt(data, pos, 5));
    var quoteDecimals :- U8Of(WordAt(data, pos, 6));
    var collateral :- DecodeAddress(WordAt(data, pos, 7));
    var collateralDecimals :- U8Of(WordAt(data, pos, 8));
    var sp1Verifier :- DecodeAddress(WordAt(data, pos, 11));
    Ok(Services(
      history, WordAt(data, pos, 1), historyWindow, wrappedNative, WordAt(data, pos, 4), quoteAsset,
      quoteDecimals, collateral, collateralDecimals, WordAt(data, pos, 9), WordAt(data, pos, 10), sp1Verifier,
      WordAt(data, pos, 12), WordAt(data, pos, 13)))
  }

  lemma ServicesCanonical(data: Bytes, pos: nat, v: Services)
    requires pos + 32 * 14 <= |data|
    ensures ServicesOf(data, pos) == Ok(v) <==> At(data, pos, ServicesWords(v))
  {
    hide AddressWord;
    hide UintWord;
    hide SignedWord;
    hide DecodeAddress;
    hide U64Of;
    hide U8Of;
    AddressCanonical(WordAt(data, pos, 0), v.history);
    U64Canonical(WordAt(data, pos, 2), v.historyWindow);
    AddressCanonical(WordAt(data, pos, 3), v.wrappedNative);
    AddressCanonical(WordAt(data, pos, 5), v.quoteAsset);
    U8Canonical(WordAt(data, pos, 6), v.quoteDecimals);
    AddressCanonical(WordAt(data, pos, 7), v.collateral);
    U8Canonical(WordAt(data, pos, 8), v.collateralDecimals);
    AddressCanonical(WordAt(data, pos, 11), v.sp1Verifier);
    var ws := ServicesWords(v);
    assert At(data, pos, ws) <==>
           WordAt(data, pos, 0) == ws[0] && WordAt(data, pos, 1) == ws[1] && WordAt(data, pos, 2) == ws[2]
           && WordAt(data, pos, 3) == ws[3] && WordAt(data, pos, 4) == ws[4] && WordAt(data, pos, 5) == ws[5]
           && WordAt(data, pos, 6) == ws[6] && WordAt(data, pos, 7) == ws[7] && WordAt(data, pos, 8) == ws[8]
           && WordAt(data, pos, 9) == ws[9] && WordAt(data, pos, 10) == ws[10] && WordAt(data, pos, 11) == ws[11]
           && WordAt(data, pos, 12) == ws[12] && WordAt(data, pos, 13) == ws[13];
  }

  method ReadServices(r: WordReader) returns (v: Result<Services, CoreError>)
    requires r.Room(14)
    modifies r`position
    ensures v == ServicesOf(r.data, old(r.position))
    ensures v.Ok? ==> r.position == old(r.position) + 32 * 14
  {
    hide DecodeAddress;
    hide U64Of;
    hide U8Of;
    var history :- r.Address();
    var historyCodeHash := r.Take();
    var historyWindow :- r.U64();
    var wrappedNative :- r.Address();
    var wrappedNativeCodeHash := r.Take();
    var quoteAsset :- r.Address();
    var quoteDecimals :- r.U8();
    var collateral :- r.Address();
    var collateralDecimals :- r.U8();
    var economicPolicyHash := r.Take();
    var proofSuiteHash := r.Take();
    var sp1Verifier :- r.Address();
    var sp1VerifierCodeHash := r.Take();
    var circuitIdentity := r.Take();
    v := Ok(Services(
      history, historyCodeHash, historyWindow, wrappedNative, wrappedNativeCodeHash, quoteAsset, quoteDecimals,
      collateral, collateralDecimals, economicPolicyHash, proofSuiteHash, sp1Verifier, sp1VerifierCodeHash,
      circuitIdentity));
  }

  // ----- the whole terms -----

  function VenueListOf(data: Bytes, pos: nat, n: nat): (r: Result<seq<Venue>, CoreError>)
    requires pos + 384 * n <= |data|
    ensures r.Ok? ==> |r.value| == n
    decreases n
  {
    if n == 0 then Ok([])
    else
      var front :- VenueListOf(data, pos, n - 1);
      var last :- VenueOf(data, pos + 384 * (n - 1));
      Ok(front + [last])
  }

  lemma {:induction false} VenueListCanonical(data: Bytes, pos: nat, n: nat, venues: seq<Venue>)
    requires pos + 384 * n <= |data|
    ensures VenueListOf(data, pos, n) == Ok(venues) <==>
            |venues| == n && AllEncodable(venues) && At(data, pos, VenuesWords(venues))
  {
    hide VenueOf;
    hide VenueWords;
    hide Encodable;
    if n > 0 && |venues| == n {
      var front, last := venues[..n - 1], venues[n - 1];
      assert venues == front + [last];
      VenueListCanonical(data, pos, n - 1, front);
      VenueCanonical(data, pos + 384 * (n - 1), last);
      if AllEncodable(venues) {
        AtConcat(data, pos, VenuesWords(front), VenueWords(last));
      }
    }
  }

  method ReadVenues(r: WordReader, n: nat) returns (v: Result<seq<Venue>, CoreError>)
    requires r.Room(12 * n)
    modifies r`position
    ensures v == VenueListOf(r.data, old(r.position), n)
    ensures v.Ok? ==> r.position == old(r.position) + 384 * n
  {
    hide VenueOf;
    ghost var start := r.position;
    var out: seq<Venue> := [];
    var i := 0;
    while i < n
      invariant i <= n && r.position == start + 384 * i
      invariant VenueListOf(r.data, start, i) == Ok(out)
    {
      var next := ReadVenue(r);
      if next.Err? {
        FirstBadVenue(r.data, start, i, n);
        return Err(next.error);
      }
      out := out + [next.value];
      i := i + 1;
    }
    v := Ok(out);
  }

  lemma {:induction false} FirstBadVenue(data: Bytes, pos: nat, i: nat, n: nat)
    requires i < n && pos + 384 * n <= |data|
    requires VenueListOf(data, pos, i).Ok? && VenueOf(data, pos + 384 * i).Err?
    ensures VenueListOf(data, pos, n) == Err(VenueOf(data, pos + 384 * i).error)
  {
    hide VenueOf;
    if i < n - 1 {
      FirstBadVenue(data, pos, i, n - 1);
    }
  }

  /** The fields in their places, before validation. */
  function FieldsOf(data: Bytes): (r: Result<Terms, CoreError>)
    requires |data| == TERMS_ABI_BYTES
    ensures r.Ok? ==> r.value.Sized()
  {
    var identity :- IdentityOf(data, 0);
    var entrants :- AddressesOf(data, 320, 8);
    var venues :- VenueListOf(data, 608, 8);
    var schedule :- ScheduleOf(data, 3680);
    var services :- ServicesOf(data, 3904);
    AddressCount(data, 320, 8);
    Ok(Terms(identity, entrants, WordAt(data, 576, 0), venues, schedule, services))
  }

  lemma FieldsCanonical(data: Bytes, t: Terms)
    requires |data| == TERMS_ABI_BYTES
    ensures FieldsOf(data) == Ok(t) <==> t.Sized() && AllEncodable(t.venues) && data == TermsBytes(t)
  {
    IdentityCanonical(data, 0, t.identity);
    AddressesCanonical(data, 320, 8, t.entrants);
    VenueListCanonical(data, 608, 8, t.venues);
    ScheduleCanonical(data, 3680, t.schedule);
    ServicesCanonical(data, 3904, t.services);
    if t.Sized() && AllEncodable(t.venues) {
      SectionsAt(data, t);
      FlattenAt(TermsWords(t), data);
    }
    hide IdentityOf;
    hide AddressesOf;
    hide VenueListOf;
    hide ScheduleOf;
    hide ServicesOf;
    hide TermsWords;
    hide At;
  }

  lemma SectionsAt(data: Bytes, t: Terms)
    requires |data| == TERMS_ABI_BYTES && t.Sized() && AllEncodable(t.venues)
    ensures At(data, 0, TermsWords(t)) <==>
            && At(data, 0, IdentityWords(t.identity)) && At(data, 320, AddressWords(t.entrants))
            && WordAt(data, 576, 0) == t.entrantsHash
            && At(data, 608, VenuesWords(t.venues)) && At(data, 3680, ScheduleWords(t.schedule))
            && At(data, 3904, ServicesWords(t.services))
  {
    hide At;
    hide IdentityWords;
    hide AddressWords;
    hide VenuesWords;
    hide ScheduleWords;
    hide ServicesWords;
    var last := ScheduleWords(t.schedule) + ServicesWords(t.services);
    AtConcat(data, 3680, ScheduleWords(t.schedule), ServicesWords(t.services));
    AtConcat(data, 608, VenuesWords(t.venues), last);
    AtConcat(data, 576, [t.entrantsHash], VenuesWords(t.venues) + last);
    OneWord(data, 576, 0, t.entrantsHash);
    AtConcat(data, 320, AddressWords(t.entrants), [t.entrantsHash] + (VenuesWords(t.venues) + last));
    AtConcat(data, 0, IdentityWords(t.identity),
             AddressWords(t.entrants) + ([t.entrantsHash] + (VenuesWords(t.venues) + last)));
  }

  /** The terms a byte string is the encoding of, if any. */
  ghost function TermsOf(H: Keccak, data: Bytes): Option<Terms> {
    if |data| == TERMS_ABI_BYTES && FieldsOf(data).Ok? && ValidTerms(H, FieldsOf(data).value)
    then Some(FieldsOf(data).value) else None
  }

  /** Decoding and encoding are inverse on exactly the valid terms. */
  lemma TermsCanonical(H: Keccak, data: Bytes, t: Terms)
    ensures TermsOf(H, data) == Some(t) <==>
            ValidTerms(H, t) && AllEncodable(t.venues) && data == TermsBytes(t)
  {
    hide ValidTerms;
    hide FieldsOf;
    hide TermsBytes;
    if |data| == TERMS_ABI_BYTES {
      FieldsCanonical(data, t);
    }
    ValidSized(H, t);
  }

  lemma ValidSized(H: Keccak, t: Terms)
    ensures ValidTerms(H, t) ==> t.Sized() && AllEncodable(t.venues)
  {
    if ValidTerms(H, t) {
      ValidEncodable(H, t);
    }
  }

  /** Encodes checked terms. */
  method EncodeTerms(H: Keccak, t: Terms) returns (r: Result<Bytes, CoreError>)
    requires t.Sized()
    ensures r.Ok? <==> ValidTerms(H, t)
    ensures r.Ok? ==> AllEncodable(t.venues) && r.value == TermsBytes(t)
  {
    var checked := Validate(H, t);
    if checked.Err? {
      return Err(checked.error);
    }
    ValidEncodable(H, t);
    hide ValidTerms;
    r := Ok(Flatten(TermsWords(t)));
  }

  /** Decodes with one reader over the whole encoding, then validates. */
  method DecodeTerms(H: Keccak, data: Bytes) returns (r: Result<Terms, CoreError>)
    ensures TermsOf(H, data) == if r.Ok? then Some(r.value) else None
    ensures |data| != TERMS_ABI_BYTES ==> r == Err(CoreError.Length)
  {
    hide ValidTerms;
    hide IdentityOf;
    hide AddressesOf;
    hide VenueListOf;
    hide ScheduleOf;
    hide ServicesOf;
    if |data| != TERMS_ABI_BYTES {
      return Err(CoreError.Length);
    }
    var reader := new WordReader(data);
    var identity :- ReadIdentity(reader);
    var entrants :- reader.Addresses(8);
    var entrantsHash := reader.Take();
    var venues :- ReadVenues(reader, 8);
    var schedule :- ReadSchedule(reader);
    var services :- ReadServices(reader);
    AddressCount(data, 320, 8);
    var t := Terms(identity, entrants, entrantsHash, venues, schedule, services);
    var checked := Validate(H, t);
    if checked.Err? {
      return Err(checked.error);
    }
    r := Ok(t);
  }
}
