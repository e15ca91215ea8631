/** The public journal of a range: its structural validation and 800-byte ABI form. */
module Journals {
  import opened Prelude
  import opened Uint
  import opened AbiWords
  import opened WordReaders
  import opened VolumeTerms
  import opened TermsCodec

  const JOURNAL_ABI_BYTES: nat := 800

  /** The fields that the context of a run fixes. */
  datatype Head = Head(
    domain: Hash, termsHash: Hash, proofSuiteHash: Hash, beneficiary: Address, coverageMask: byte,
    fromExclusive: u64, toInclusive: u64, beforeHash: Hash, endHash: Hash)

  /** Accumulated amounts, one slot per possible entrant. */
  datatype Totals = Totals(volumes: seq<Word>, counts: seq<Word>) {
    predicate Sized() {
      |volumes| == 8 && |counts| == 8
    }
  }

  function ZeroTotals(): (z: Totals)
    ensures z.Sized()
  {
    Totals(seq(8, _ => ZeroWord()), seq(8, _ => ZeroWord()))
  }

  type FullTotals = t: Totals | t.Sized() witness ZeroTotals()

  datatype Journal = Journal(head: Head, totals: Totals)

  function JournalDomain(H: Keccak): Hash {
    H(Ascii("KAI_VOLUME_SP1_RANGE_V1"))
  }

  function TermsHash(H: Keccak, t: Terms): Hash
    requires t.Sized() && AllEncodable(t.venues)
  {
    H(TermsBytes(t))
  }

  /** The head matches validated terms. */
  ghost predicate ValidHead(H: Keccak, head: Head, t: Terms) {
    && ValidTerms(H, t) && AllEncodable(t.venues)
    && ValidateMask(head.coverageMask, t.identity.entrantCount).Ok?
    && head.domain == JournalDomain(H)
    && head.termsHash == TermsHash(H, t) && head.proofSuiteHash == t.services.proofSuiteHash
    && head.beneficiary != ZeroAddress() && head.beforeHash != ZeroWord() && head.endHash != ZeroWord()
    && t.schedule.startBlock <= head.fromExclusive < head.toInclusive <= t.schedule.snapshotBlock
  }

  /** Slots outside the mask are zero. */
  predicate Padded(mask: byte, totals: Totals)
    requires totals.Sized()
  {
    forall i :: 0 <= i < 8 && !Covers(mask, i) ==> totals.volumes[i] == ZeroWord() == totals.counts[i]
  }

  ghost predicate ValidJournal(H: Keccak, j: Journal, t: Terms) {
    ValidHead(H, j.head, t) && j.totals.Sized() && Padded(j.head.coverageMask, j.totals)
  }

  method ValidateJournal(H: Keccak, j: Journal, t: Terms) returns (r: Result<(), CoreError>)
    requires t.Sized() && j.totals.Sized()
    ensures r.Ok? <==> ValidJournal(H, j, t)
  {
    hide ValidTerms;
    hide TermsBytes;
    hide ValidateMask;
    var checked := Validate(H, t);
    if checked.Err? {
      return checked;
    }
    ValidSized(H, t);
    var head := j.head;
    var mask := ValidateMask(head.coverageMask, t.identity.entrantCount);
    if mask.Err? {
      return mask;
    }
    if head.domain != JournalDomain(H) || head.termsHash != TermsHash(H, t)
       || head.proofSuiteHash != t.services.proofSuiteHash {
      return Err(Invalid);
    }
    if head.beneficiary == ZeroAddress() || head.beforeHash == ZeroWord() || head.endHash == ZeroWord() {
      return Err(Invalid);
    }
    if head.fromExclusive >= head.toInclusive || head.fromExclusive < t.schedule.startBlock
       || head.toInclusive > t.schedule.snapshotBlock {
      return Err(Invalid);
    }
    for i := 0 to 8
      invariant forall k :: 0 <= k < i && !Covers(head.coverageMask, k) ==>
                  j.totals.volumes[k] == ZeroWord() == j.totals.counts[k]
    {
      if !Covers(head.coverageMask, i)
         && (j.totals.volumes[i] != ZeroWord() || j.totals.counts[i] != ZeroWord()) {
        return Err(NonCanonical);
      }
    }
    r := Ok(());
  }

  // ----- the ABI form -----

  function HeadWords(h: Head): (ws: seq<Word>)
    ensures |ws| == 9
  {
    [h.domain, h.termsHash, h.proofSuiteHash, AddressWord(h.beneficiary), UintWord(h.coverageMask),
     UintWord(h.fromExclusive), UintWord(h.toInclusive), h.beforeHash, h.endHash]
  }

  function JournalBytes(j: Journal): (bs: Bytes)
    requires j.totals.Sized()
    ensures |bs| == JOURNAL_ABI_BYTES
  {
    Flatten(HeadWords(j.head) + (j.totals.volumes + j.totals.counts))
  }

  function HeadOf(data: Bytes, pos: nat): Result<Head, CoreError>
    requires pos + 288 <= |data|
  {
    var beneficiary :- DecodeAddress(WordAt(data, pos, 3));
    var coverageMask :- U8Of(WordAt(data, pos, 4));
    var fromExclusive :- U64Of(WordAt(data, pos, 5));
    var toInclusive :- U64Of(WordAt(data, pos, 6));
    Ok(Head(WordAt(data, pos, 0), WordAt(data, pos, 1), WordAt(data, pos, 2), beneficiary, coverageMask,
            fromExclusive, toInclusive, WordAt(data, pos, 7), WordAt(data, pos, 8)))
  }

  lemma HeadCanonical(data: Bytes, pos: nat, h: Head)
    requires pos + 288 <= |data|
    ensures HeadOf(data, pos) == Ok(h) <==> At(data, pos, HeadWords(h))
  {
    hide AddressWord;
    hide UintWord;
    hide DecodeAddress;
    hide U8Of;
    hide U64Of;
    AddressCanonical(WordAt(data, pos, 3), h.beneficiary);
    U8Canonical(WordAt(data, pos, 4), h.coverageMask);
    U64Canonical(WordAt(data, pos, 5), h.fromExclusive);
    U64Canonical(WordAt(data, pos, 6), h.toInclusive);
    var ws := HeadWords(h);
    assert At(data, pos, ws) <==>
           WordAt(data, pos, 0) == ws[0] && WordAt(data, pos, 1) == ws[1] && WordAt(data, pos, 2) == ws[2]
           && WordAt(data, pos, 3) == ws[3] && WordAt(data, pos, 4) == ws[4] && WordAt(data, pos, 5) == ws[5]
           && WordAt(data, pos, 6) == ws[6] && WordAt(data, pos, 7) == ws[7] && WordAt(data, pos, 8) == ws[8];
  }

  method ReadHead(r: WordReader) returns (v: Result<Head, CoreError>)
    requires r.Room(9)
    modifies r`position
    ensures v == HeadOf(r.data, old(r.position))
    ensures v.Ok? ==> r.position == old(r.position) + 288
  {
    hide DecodeAddress;
    hide U8Of;
    hide U64Of;
    var domain := r.Take();
    var termsHash := r.Take();
    var proofSuiteHash := r.Take();
    var beneficiary :- r.Address();
    var coverageMask :- r.U8();
    var fromExclusive :- r.U64();
    var toInclusive :- r.U64();
    var beforeHash := r.Take();
    var endHash := r.Take();
    v := Ok(Head(domain, termsHash, proofSuiteHash, beneficiary, coverageMask, fromExclusive, toInclusive,
                 beforeHash, endHash));
  }

  function JournalFields(data: Bytes): Result<Journal, CoreError>
    requires |data| == JOURNAL_ABI_BYTES
  {
    var head :- HeadOf(data, 0);
    Ok(Journal(head, Totals(WordsOf(data, 288, 8), WordsOf(data, 544, 8))))
  }

  lemma JournalFieldsCanonical(data: Bytes, j: Journal)
    requires |data| == JOURNAL_ABI_BYTES
    ensures JournalFields(data) == Ok(j) <==> j.totals.Sized() && data == JournalBytes(j)
  {
    hide HeadOf;
    hide HeadWords;
    HeadCanonical(data, 0, j.head);
    if j.totals.Sized() {
      var tail := j.totals.volumes + j.totals.counts;
      FlattenAt(HeadWords(j.head) + tail, data);
      AtConcat(data, 0, HeadWords(j.head), tail);
      AtConcat(data, 288, j.totals.volumes, j.totals.counts);
      WordsAtUnique(data, 288, j.totals.volumes);
      WordsAtUnique(data, 544, j.totals.counts);
    }
  }

  lemma WordsAtUnique(data: Bytes, pos: nat, ws: seq<Word>)
    requires pos + 32 * |ws| <= |data|
    ensures At(data, pos, ws) <==> ws == WordsOf(data, pos, |ws|)
  {
    if At(data, pos, ws) {
      forall k | 0 <= k < |ws| ensures ws[k] == WordsOf(data, pos, |ws|)[k] {
        assert ws[k] == WordAt(data, pos, k);
      }
    }
  }

  /** The journal a byte string encodes for given terms, if any. */
  ghost function JournalOf(H: Keccak, data: Bytes, t: Terms): Option<Journal> {
    if |data| == JOURNAL_ABI_BYTES && JournalFields(data).Ok? && ValidJournal(H, JournalFields(data).value, t)
    then Some(JournalFields(data).value) else None
  }

  /** Decoding and encoding are inverse on exactly the valid journals. */
  lemma JournalCanonical(H: Keccak, data: Bytes, j: Journal, t: Terms)
    ensures JournalOf(H, data, t) == Some(j) <==> ValidJournal(H, j, t) && data == JournalBytes(j)
  {
    hide ValidHead;
    hide Padded;
    hide JournalFields;
    hide JournalBytes;
    if |data| == JOURNAL_ABI_BYTES {
      JournalFieldsCanonical(data, j);
    }
  }

  method EncodeJournal(H: Keccak, j: Journal, t: Terms) returns (r: Result<Bytes, CoreError>)
    requires t.Sized() && j.totals.Sized()
    ensures r.Ok? <==> ValidJournal(H, j, t)
    ensures r.Ok? ==> r.value == JournalBytes(j)
  {
    var checked := ValidateJournal(H, j, t);
    if checked.Err? {
      return Err(checked.error);
    }
    r := Ok(Flatten(HeadWords(j.head) + (j.totals.volumes + j.totals.counts)));
  }

  method DecodeJournal(H: Keccak, data: Bytes, t: Terms) returns (r: Result<Journal, CoreError>)
    requires t.Sized()
    ensures JournalOf(H, data, t) == if r.Ok? then Some(r.value) else None
    ensures |data| != JOURNAL_ABI_BYTES ==> r == Err(CoreError.Length)
  {
    hide HeadOf;
    hide ValidHead;
    if |data| != JOURNAL_ABI_BYTES {
      return Err(CoreError.Length);
    }
    var reader := new WordReader(data);
    var head :- ReadHead(reader);
    var volumes := reader.Words(8);
    var counts := reader.Words(8);
    var j := Journal(head, Totals(volumes, counts));
    var checked := ValidateJournal(H, j, t);
    if checked.Err? {
      return Err(checked.error);
    }
    r := Ok(j);
  }
}
