# KAI volume prover: model and proofs

The repository proves, per block range, how much quote volume each race entrant traded. A TypeScript
side captures blocks, rebuilds every receipts trie and frames headers and trie nodes; a Rust side, run
inside a proof system, evaluates the frames into a public journal. This project models both sides and
proves what they promise each other.

## What is modelled

- **Codecs.** Canonical RLP (eager and lazy readers), hex-prefix paths and trie nodes (Appendices B, C
  and D of the Ethereum Yellow Paper), ABI words, terms, journal, context and block frames, receipts and
  Nitro headers. Each strict decoder is shown to accept exactly one encoding per value.
- **The trie engine.** `Trie` is the abstract trie of the TypeScript builder; `EncodeNode` writes it and
  `Unfold` reads it back from a content-addressed store. `VerifyRaw` and `visit_receipts` are proved
  against lookups and in-order entries of the abstract trie.
- **The builder.** `ReceiptsTrie`, shown to be the one compressed trie of its receipts, its corpus and its
  inclusion proofs, and the inclusion verifier.
- **Volume.** Qualification of V4 swap logs, 256-bit checked addition, accumulation per entrant.
- **The chunk relation.** `evaluate_frames` as a state machine, its outcome as exact sums over a chain of
  blocks, the whole-run theorems, and what the journal says of the context frame byte by byte.
- **Batching** of swap proofs.

Keccak is a parameter `H` of everything that hashes: a total function from byte strings to 32 bytes, of
which nothing else is assumed. Binding statements end in "or two different strings of this finite set
have one hash" (`Collides`), or assume that set free of collisions.

A `nat` stands for an unsigned machine integer where the source checks or cannot reach the bound; where
a bound matters (`u64` lengths and counters, 256-bit words, signed 24 and 128 bits) it is explicit.
Loops and objects of the source are methods and classes proved against functions; the callback of the
traversal is a function on a state, so that "the visitor was called with these values in this order" is a
fold.

## Where the code falls short of a property

- The block frame of a header without receipts is not unique: the empty corpus and the single node 0x80
  are both accepted (`EmptyBlockTwice`), and these two only (`EmptyBlockFrames`). With receipts the frame
  is unique (`FramesIdentical`).
- `validateGuestReceiptCompat` does not look at log topics, and the strict decoder refuses more than four:
  `FiveTopicsRefused` gives such a receipt, `CodecsAgree` the exact condition.
- The exported `encodeReceipt` accepts gas of 2^256 and more, which `decodeReceipt` refuses: `BigGasRefused`
  gives such a receipt, `DecodeEncode` the exact condition. Receipts that come through `parseRpcBlockReceipt`
  never carry such gas, as it reads at most 64 hexadecimal digits (receipt-proof.ts:78-81).

## Model

| member | source | states |
|---|---|---|
| VisitReceipts.VisitAllReceipts | prover/volume-sp1/trie/src/receipts.rs:258-335 | succeeds exactly when the root and the corpus establish a complete list (`CompleteReceipts`): the corpus is, hash by hash, the root and every hashed node of one well-formed trie whose content is receipts 0..m-1 under RLP(index) and nothing else; the visitor is then called once per index with the stored bytes, in the order 1..127, 0, 128.., and the count is m. `NonIncreasingKeys` and `NextIndexPresent` are never returned |
| VisitReceipts.WalkCommits | prover/volume-sp1/trie/src/receipts.rs:318-326 | a traversal that resolved, with greatest index count-1 and every node used, is of a trie with that root that holds a dense list, and the corpus is exactly its nodes (the pigeonhole step) |
| VisitReceipts.CommittedWalk | prover/volume-sp1/trie/src/receipts.rs:274-317 | conversely every such trie is traversed to the end and uses every node of its corpus |
| VisitReceipts.CommitsUnique | prover/volume-sp1/trie/src/receipts.rs:75-92 | a corpus without repeated hashes establishes at most one list for a root, so the result is a function of root and corpus |
| VisitReceipts.Pigeonhole | prover/volume-sp1/trie/src/receipts.rs:321-323 | distinct indices below their count are all the indices below it |
| VisitReceipts.DenseEntries | prover/volume-sp1/trie/src/receipts.rs:228-244 | entries with strictly increasing keys and greatest index count-1 are exactly the entries of receipts 0..count-1 |
| VisitReceipts.HeldEntries | prover/volume-sp1/trie/src/receipts.rs:247-257 | a trie that holds a receipt list has exactly these entries in key order, so the visiting order is fixed |
| VisitReceipts.NextIsExcluded | prover/volume-sp1/trie/src/receipts.rs:327-334 | after the density check the path extraction for index m never fails, its proof is consumed exactly and the answer is Absent |
| VisitReceipts.FinishWalk | prover/volume-sp1/trie/src/receipts.rs:318-334 | the checks after the traversal accept exactly the established lists |
| Traversal.Walk | prover/volume-sp1/trie/src/receipts.rs:280-317 | the stack loop delivers every entry of the trie to the visitor once, in key order, marks exactly the referenced hashes, and terminates on every corpus, cyclic ones included (a stack weight falls) |
| Traversal.WalkBranch | prover/volume-sp1/trie/src/receipts.rs:294-315 | a branch delivers its own value first, then its children from slot 0 to 15, and keeps the traversal invariant |
| Traversal.WalkExtension | prover/volume-sp1/trie/src/receipts.rs:287-293 | an extension is replaced by its child under a longer prefix of smaller weight, or the trie does not resolve |
| Traversal.PushChildren | prover/volume-sp1/trie/src/receipts.rs:302-314 | the reverse push leaves the children of a branch on the stack in ascending order, prefix-incomparable to everything below them |
| Traversal.AppendPath | prover/volume-sp1/trie/src/receipts.rs:176-184 | a node path is appended nibble by nibble up to eighteen nibbles, else the index width is refused |
| WalkSpec.LongerIsLighter | prover/volume-sp1/trie/src/receipts.rs:280-317 | a frame with a strictly longer prefix has at most a seventeenth of the weight: the termination measure |
| WalkSpec.BranchFrame | prover/volume-sp1/trie/src/receipts.rs:294-315 | the entries and references of a branch frame are its own value followed by those of its children in order |
| WalkSpec.ExtensionFrame | prover/volume-sp1/trie/src/receipts.rs:287-293 | the entries and references of an extension frame are those of its child under the longer prefix |
| ReceiptWalk.NewStore | prover/volume-sp1/trie/src/receipts.rs:76-92 | the store exists exactly when no two nodes share a hash, and holds exactly the corpus, unused |
| ReceiptWalk.WitnessStore.Hashed | prover/volume-sp1/trie/src/receipts.rs:94-103 | returns the bytes under a hash, refuses a short node except as root, and marks that hash and no other as used |
| ReceiptWalk.WitnessStore.ChildBytes | prover/volume-sp1/trie/src/receipts.rs:105-111 | resolves a child reference and marks exactly its hash |
| ReceiptWalk.WitnessStore.PathProof | prover/volume-sp1/trie/src/receipts.rs:115-148 | extracts the hashed nodes on the path of a key, root first |
| ReceiptWalk.PathNodesMinimal | prover/volume-sp1/trie/src/receipts.rs:113-148 | on a resolved trie the extraction never fails and yields the shortest acceptable proof |
| ReceiptWalk.Indices.Record | prover/volume-sp1/trie/src/receipts.rs:228-244 | decodes the index of a path, requires a strictly greater key than before, and updates count and maximum |
| ReceiptKeys.DecodePathIndex | prover/volume-sp1/trie/src/receipts.rs:186-212 | computes the index of a nibble path, or the error of the first failing check |
| ReceiptKeys.PathIndexCanonical | prover/volume-sp1/trie/src/receipts.rs:186-212 | a path decodes to an index exactly when it is the nibbles of RLP(index) and the index has 64 bits |
| ReceiptKeys.KeyIsRlp | prover/volume-sp1/trie/src/lib.rs:64-83 | the hand-written key is RLP of the minimal index bytes, the same key the builder uses |
| ReceiptKeys.KeyOrder | prover/volume-sp1/trie/src/lib.rs:64-83 | byte order of keys is the order 1..127, 0, 128.. of indices |
| ReceiptKeys.KeysInjective | prover/volume-sp1/trie/src/lib.rs:64-83 | different indices have different keys |
| ReceiptKeys.VisitOrderIsSorted | prover/volume-sp1/trie/src/receipts.rs:255-257 | the visit order enumerates 0..m-1 once each in key order |
| LookupProof.VerifyProof | prover/volume-sp1/trie/src/lib.rs:254-315 | the loop over node, position and cursor computes the recursive verifier; it terminates because the remaining key shrinks |
| LookupProof.LookupBinding | prover/volume-sp1/trie/src/lib.rs:254-315 | two accepted proofs of one key under one root give the same answer, inline nodes omitted or repeated, or two different proof nodes collide |
| LookupProof.VerifiedAnswerIsLookup | prover/volume-sp1/trie/src/lib.rs:254-315 | an accepted proof answers with the content of the committed trie, presence and absence alike, or a collision is exhibited |
| LookupProof.SuppliedProofAccepted | prover/volume-sp1/trie/src/lib.rs:211-315 | every node list that supplies the hashed nodes on the path, inline nodes optional, is accepted with the content of the trie |
| LookupProof.AcceptedProofSupplied | prover/volume-sp1/trie/src/lib.rs:211-315 | and no other list is: an accepted proof is the root followed by nodes that supply the path with nothing left over, or two nodes collide |
| ProofChanges.ExtraNodes | prover/volume-sp1/trie/src/lib.rs:240-245 | nodes added to an accepted proof are refused as trailing or change nothing |
| ProofChanges.CutProof | prover/volume-sp1/trie/src/lib.rs:224-226 | an accepted proof cut at any point is incomplete or still gives the same answer |
| ProofChanges.OmitInline | prover/volume-sp1/trie/src/lib.rs:211-238 | the root and the nodes of 32 bytes and more of an accepted proof are accepted with the same answer, so no shorter node ever stands for a hash |
| ProofChanges.AlteredNode | prover/volume-sp1/trie/src/lib.rs:226-232 | an accepted proof in which the root or a long node is replaced by one with another hash is refused as a hash mismatch |
| ProofChanges.EmptyTrieProofs | prover/volume-sp1/trie/src/lib.rs:260-265 | under the empty root every key is absent, with no proof node or the encoded empty string alone |
| LookupProof.TakeMove | prover/volume-sp1/trie/src/lib.rs:275-313 | the branch on node kind and path match, in positions of the raw key, is the move on the remaining nibbles |
| NodeCodec.ParseNode | prover/volume-sp1/trie/src/lib.rs:179-209 | the reader with its loop over sixteen slots computes the specified node, or the first error |
| NodeCodec.ParseChild | prover/volume-sp1/trie/src/lib.rs:158-177 | computes the specified child reference, validating embedded nodes recursively |
| NodeCodec.ReadTrie | prover/volume-sp1/trie/src/lib.rs:179-209 | every node a well-formed trie encodes is accepted and read as that node |
| NodeCodec.ReadDeterminesEncoding | prover/volume-sp1/trie/src/lib.rs:179-209 | whatever is read as a trie node is that node's one encoding |
| NodeCodec.ChildCanonical | prover/volume-sp1/trie/src/lib.rs:158-177 | an item is read as a child exactly when it is the field a parent writes for it |
| Unfolding.UnfoldInvertsEncoding | prover/volume-sp1/trie/src/lib.rs:179-238 | with a content-addressed store, a string unfolds to a trie exactly when it is the trie's encoding and the store resolves it |
| Unfolding.RootBindsTrie | prover/volume-sp1/trie/src/lib.rs:211-238 | two tries with one root hash are equal, or two different nodes of theirs collide |
| HexPrefix.CompactCanonical | prover/volume-sp1/trie/src/lib.rs:99-119 | a compact path is accepted with given nibbles and kind exactly when it is their one encoding and an extension is not empty |
| HexPrefix.MatchesIsPrefix | prover/volume-sp1/trie/src/lib.rs:121-135 | the nibble comparison at a position is the prefix test on the rest of the key |
| HexPrefix.WriteCompact | packages/volume-proof/src/receipt-proof.ts:93-105 | the builder writes exactly the compact form of a path |
| Tries.EntriesAreLookups | prover/volume-sp1/trie/src/receipts.rs:247-257 | the in-order entries of a trie under a prefix are exactly its lookups |
| Tries.EntriesIncreasing | prover/volume-sp1/trie/src/receipts.rs:229-239 | and they come in strictly increasing key order |
| Rlp.ReadPrefix | prover/volume-sp1/primitives/src/rlp.rs:13-43 | locates the first item with the length loop, whose checked arithmetic cannot overflow |
| Rlp.PrefixSound | prover/volume-sp1/primitives/src/rlp.rs:13-43 | whatever the reader accepts is the one encoding of the list flag and payload it reports |
| Rlp.PrefixComplete | prover/volume-sp1/primitives/src/rlp.rs:13-43 | every encoding that fits in 64-bit lengths is accepted, whatever follows |
| Rlp.ReadList | prover/volume-sp1/primitives/src/rlp.rs:55-71 | the eager reader splits a list into its items or reports the first error |
| Rlp.OpenItems | prover/volume-sp1/primitives/src/rlp.rs:83-90 | opening the lazy reader checks the outer list only |
| Rlp.Items.Next | prover/volume-sp1/primitives/src/rlp.rs:93-110 | each call yields the next checked item of the remaining payload; after an error the reader is exhausted |
| Rlp.DrainItems | prover/volume-sp1/primitives/src/rlp.rs:79-111 | draining the lazy reader gives what the eager reader gives, the first error included |
| Rlp.ListCanonical | prover/volume-sp1/primitives/src/rlp.rs:45-71 | a string is read as a list of given items exactly when it is the encoding of their concatenation |
| RlpTree.DecodeCanonical | packages/volume-proof/src/ethereum-state-proof.ts:37-46 | nested decoding succeeds on exactly the canonical encodings, with the encoded value |
| Builder.FindSharedPrefix | packages/volume-proof/src/receipt-proof.ts:107-122 | the nested loops find how many nibbles after a depth all entries share |
| Builder.BuildNode | packages/volume-proof/src/receipt-proof.ts:124-154 | the recursive builder with its buckets computes `Build`, which `BuildIsTheTrie` shows to be the only compressed trie of the entries |
| CanonicalTries.CompressedUnique | packages/volume-proof/src/receipt-proof.ts:124-154 | two compressed tries with the same lookups are the same trie: leaves hold values, extensions lead to branches, and every branch has at least two of its own value and its occupied slots |
| CanonicalTries.BuildCompressed | packages/volume-proof/src/receipt-proof.ts:124-154 | from entries with values the builder makes a compressed trie |
| CanonicalTries.BuildIsTheTrie | packages/volume-proof/src/receipt-proof.ts:124-154 | a compressed trie whose lookups are exactly the given entries is the built one |
| BuiltTries.BuildContent | packages/volume-proof/src/receipt-proof.ts:124-154 | a built trie answers a key with a value exactly when that entry was given |
| BuiltTries.BuildWellFormed | packages/volume-proof/src/receipt-proof.ts:124-154 | a built trie has non-empty extensions and no empty branch |
| BuiltTries.SmallAddressable | packages/volume-proof/src/receipt-proof.ts:156-175 | tries over paths and values below 2^32 stay within 64-bit RLP lengths |
| ReceiptsTries.NewReceiptsTrie | packages/volume-proof/src/receipt-proof.ts:250-263 | for every integer index a JavaScript number can hold, construction fails exactly on an empty list or a repeated index, and otherwise builds the trie of the entries in strictly increasing key order |
| ReceiptsTries.SortIncreasing | packages/volume-proof/src/receipt-proof.ts:261 | entries with different keys are sorted into strictly increasing key order |
| ReceiptsTries.AnyOrder | packages/volume-proof/src/receipt-proof.ts:250-263 | two listings of the same receipts, in any order, have one trie |
| ReceiptsTries.TrieKeysInjective | packages/volume-proof/src/receipt-proof.ts:190-194 | different indices, of any size a number can hold, have different keys |
| ReceiptsTries.TrieKeyIsReceiptKey | packages/volume-proof/src/receipt-proof.ts:190-194 | for 64-bit indices the builder's key is the walker's |
| ReceiptsTries.TrieContent | packages/volume-proof/src/receipt-proof.ts:250-263 | the built trie contains the given receipts under their keys and nothing else |
| ReceiptsTries.CanonicalTrie | packages/volume-proof/src/receipt-proof.ts:250-263 | a trie is the receipts trie exactly when it is compressed and its lookups are the given receipts under their keys, so the root is the canonical one |
| ReceiptsTries.CollectHashed | packages/volume-proof/src/receipt-proof.ts:275-297 | the recursive visit lists each hash of a long node once |
| ReceiptsTries.HashedNodeList | packages/volume-proof/src/receipt-proof.ts:275-304 | the corpus is strictly ascending by hash, covers the hashes of all long nodes, and without collisions is all of them |
| ReceiptsTries.BuilderWalkerAgreement | packages/volume-proof/src/receipt-proof.ts:246-304 | for receipts 0..n-1 the walker establishes exactly the given values from the builder's root and corpus if and only if the root node has at least 32 bytes; this is the statement for arbitrary byte values, which the trie code allows but encoded receipts never need |
| ReceiptsTries.AnyOrderAgreement | packages/volume-proof/src/receipt-proof.ts:246-304 | the same agreement for receipts 0..n-1 given in any order |
| Capture.EncodedReceiptsAgree | packages/volume-proof/src/receipt-proof.ts:246-304 | for every list of encodable receipts the walker establishes exactly their encoded values from the builder's root and corpus, without condition on the root |
| ReceiptsTries.LongReceiptsAgree | packages/volume-proof/src/receipt-proof.ts:246-304 | values of at least 32 bytes, as every encoded receipt is, make the agreement unconditional, shared leaves and subtrees included |
| HashOrder.SortAscending | packages/volume-proof/src/receipt-proof.ts:298-302 | sorting by hash gives the strictly ascending corpus when no hash repeats |
| HashOrder.AscendingUnique | prover/volume-sp1/chunk/src/framing.rs:90-91 | one set of nodes has one strictly ascending listing |
| InclusionProof.VerifyMerklePatriciaValue | packages/volume-proof/src/ethereum-state-proof.ts:81-129 | the loop over expected node and key index computes the recursive inclusion verifier |
| InclusionProof.ValidateProof | packages/volume-proof/src/ethereum-state-proof.ts:71-78 | accepts exactly non-empty lists within the node and byte limits, despite the early exit |
| InclusionProof.TotalIsLength | packages/volume-proof/src/ethereum-state-proof.ts:73-77 | the byte total that is limited is the length of all proof nodes put together |
| InclusionProof.VerifiedIsProper | packages/volume-proof/src/ethereum-state-proof.ts:71-129 | nothing is verified but a non-empty value under a non-empty key, by 1 to 128 nodes of together at most 256 KiB |
| InclusionProof.CollectedIsExpanded | packages/volume-proof/src/receipt-proof.ts:177-188 | the emitted proof is the root followed by every node the key enters, inline nodes included |
| InclusionProof.InclusionComplete | packages/volume-proof/src/ethereum-state-proof.ts:81-129 | the emitted proof of a stored value verifies to that value exactly when it is within the limits |
| InclusionProof.InclusionSound | packages/volume-proof/src/ethereum-state-proof.ts:81-129 | a verified value is the stored value, or two nodes collide |
| InclusionProof.InclusionBinding | packages/volume-proof/src/ethereum-state-proof.ts:81-129 | two node lists accepted for one key and root, whatever trie they come from, are the same list, or two of their nodes collide |
| InclusionProof.ReceiptProofComplete | packages/volume-proof/src/receipt-proof.ts:310-316 | every receipt of a trie verifies under its index exactly when its proof is within the limits; for 64-bit indices at most 19 nodes are emitted, so the 128-node limit is never reached; the Rust verifier accepts the same list with the same answer |
| Uint.CheckedAdd | prover/volume-sp1/core/src/uint.rs:23-36 | the byte loop with carry is integer addition, and fails exactly at 2^256 |
| Uint.WordOrder | prover/volume-sp1/core/src/uint.rs:4 | the derived comparison of byte arrays is numeric |
| AbiWords.UintCanonical | prover/volume-sp1/core/src/abi.rs:30-38 | a word is accepted with a numeric width exactly when it is the word of a number of that width |
| AbiWords.AddressCanonical | prover/volume-sp1/core/src/abi.rs:24-29 | a word is accepted as an address exactly when it is its left-padded form |
| AbiWords.SignedCanonical | prover/volume-sp1/core/src/abi.rs:39-54 | a word is accepted as a signed number exactly when it is its sign extension |
| AbiWords.SignedWordIsTwosComplement | prover/volume-sp1/core/src/abi.rs:16-22 | the sign-extended word is the 256-bit two's complement of the number |
| AbiWords.SignExtension | prover/volume-sp1/core/src/abi.rs:48-54 | copying the sign byte in front keeps the number, as in the four-byte form of an int24 |
| WordReaders.WordReader.Word | prover/volume-sp1/core/src/abi.rs:66-77 | yields the next 32 bytes, or fails at the end without moving |
| WordReaders.WordReader.Addresses | prover/volume-sp1/core/src/terms.rs:356-358 | reads a run of addresses, stopping at the first bad one |
| VolumeTerms.MaskCoversEntrants | prover/volume-sp1/core/src/terms.rs:148-157 | a mask is accepted exactly when it covers some entrant and entrants only |
| VolumeTerms.Validate | prover/volume-sp1/core/src/terms.rs:163-289 | validation with its loops accepts exactly the declaratively valid terms (pairwise distinct entrants and pools, padding, timing without overflow, shared quote) |
| VolumeTerms.ValidateSlot | prover/volume-sp1/core/src/terms.rs:239-287 | one active slot is accepted exactly when it is valid and new among the slots before it |
| TermsTheorems.ScalarsByWord | prover/volume-sp1/core/src/terms.rs:164-205 | the identity and the services are valid exactly when the required words of the encoding are not zero, the chain id is 46630, the header format word is zero and the entrant count is 3 to 8 |
| TermsTheorems.TightSchedule | prover/volume-sp1/core/src/terms.rs:206-233 | the shortest schedules are valid, and no height, quiet time or window in them can change by one without making them invalid |
| TermsTheorems.RoomKeepsValid | prover/volume-sp1/core/src/terms.rs:206-233 | an earlier start, a later expiry and a wider window keep a schedule valid up to 64-bit overflow |
| TermsTheorems.AssembledValid | prover/volume-sp1/core/src/terms.rs:239-287 | whatever tokens, accounts, fees, floors and native pairings a race chooses, the terms assembled from these choices (currency order, pool ids, entrants hash, padding) are valid, or two of its pool keys collide |
| TermsTheorems.ValidAssembled | prover/volume-sp1/core/src/terms.rs:163-289 | and there are no other valid terms: all are assembled from their own choices |
| TermsTheorems.PoolKeyFields | prover/volume-sp1/core/src/terms.rs:77-88 | the hashed pool key has 160 bytes from which each of its five fields is read back at its word |
| TermsTheorems.PoolIdBinds | prover/volume-sp1/core/src/terms.rs:77-88 | equal pool ids mean equal pool keys, or the two encoded keys collide |
| TermsTheorems.EntrantListFields | prover/volume-sp1/core/src/terms.rs:139-147 | the hashed entrant list is the offset 32, the length and one word for each address, and the addresses are read back |
| TermsTheorems.EntrantsHashBinds | prover/volume-sp1/core/src/terms.rs:139-147 | equal entrants hashes mean equal lists, or the two encoded lists collide |
| TermsCodec.EncodeTerms | prover/volume-sp1/core/src/terms.rs:290-337 | encoding succeeds exactly on valid terms |
| TermsCodec.DecodeTerms | prover/volume-sp1/core/src/terms.rs:341-386 | the reader decodes field by field, venues in a loop, and accepts exactly what `TermsCanonical` describes |
| TermsCodec.TermsCanonical | prover/volume-sp1/core/src/terms.rs:290-386 | a 4,352-byte string decodes to terms exactly when they are valid and it is their encoding: both round trips at once, int24 sign extension and inactive slots included |
| TermsCodec.VenueCanonical | prover/volume-sp1/core/src/terms.rs:33-72 | twelve words decode to a venue exactly when they are its encoding |
| Journals.ValidateJournal | prover/volume-sp1/core/src/journal.rs:29-55 | accepts exactly the journals that match their terms and are zero outside the mask |
| Journals.JournalCanonical | prover/volume-sp1/core/src/journal.rs:56-99 | an 800-byte string decodes to a journal exactly when it is valid and it is its encoding |
| Journals.EncodeJournal | prover/volume-sp1/core/src/journal.rs:56-76 | encoding succeeds exactly on valid journals |
| Journals.DecodeJournal | prover/volume-sp1/core/src/journal.rs:77-99 | the reader accepts exactly what `JournalCanonical` describes |
| JournalFrames.JournalAccepted | prover/volume-sp1/core/src/journal.rs:29-99 | a string is a journal for valid terms exactly when its bytes are: the domain, terms and suite hashes, zero padding before each narrow field, a beneficiary, a mask that covers entrants, a range within the race, two block hashes, and zero words outside the mask |
| JournalFrames.TermsHashBinds | prover/volume-sp1/core/src/terms.rs:338-340 | two valid terms with one terms hash are equal, or their whole 4,352-byte encodings collide |
| JournalFrames.RangeAccepted | prover/volume-sp1/core/src/journal.rs:29-47 | under valid terms a context is accepted exactly for a range between start and snapshot block, a mask that covers entrants only and at least one, a beneficiary and two block hashes |
| JournalFrames.FullRangeAccepted | prover/volume-sp1/core/src/journal.rs:29-47 | the whole race may be run at once for all entrants |
| Volume.MeasuredAmount | prover/volume-sp1/core/src/volume.rs:68-86 | a qualified amount is the exact absolute quote delta and at least the floor; a skipped one is below it |
| Volume.AccumulateChecked | prover/volume-sp1/core/src/volume.rs:88-99 | volume and count are both updated, or an overflow of either leaves both unchanged |
| Volume.VolumeAccumulator.Record | prover/volume-sp1/core/src/volume.rs:118-128 | the new totals are those of the specification; after an error nothing has changed; the swap is returned exactly when it was added |
| Volume.NewAccumulator | prover/volume-sp1/core/src/volume.rs:108-117 | starts at zero exactly for valid terms and mask |
| Volume.SwapCanonical | prover/volume-sp1/core/src/volume.rs:57-67 | a log carries two amounts and a sender exactly when it is the encoding of a swap event with them, the four auxiliary values fitting their types |
| Volume.QualifyFails | prover/volume-sp1/core/src/volume.rs:40-67 | qualification fails exactly on malformed logs: emitted by a pinned account with the swap topic, and either without three topics or naming a pinned pool without being a swap event in it; every other log is skipped or measured |
| Volume.QualifyMeaning | prover/volume-sp1/core/src/volume.rs:40-86 | it yields a swap exactly when the log is the swap event, in the first pinned pool it names, with that sender and these amounts, the quote is the absolute amount of the other currency at or above the floor, and the direction is the sign of the token amount |
| VolumeSums.TotalsAreSums | prover/volume-sp1/core/src/volume.rs:118-128 | recording a list of logs succeeds exactly when no log of a pinned pool is malformed and every entrant's sum and count stay below 2^256; the totals are then the exact integer sums |
| VolumeSums.OrderIndependent | prover/volume-sp1/core/src/volume.rs:118-128 | the order of the logs decides neither success nor the totals |
| VolumeSums.RecordConcat | prover/volume-sp1/core/src/volume.rs:118-128 | recording two lists in turn is recording their concatenation |
| VolumeSums.UncoveredStay | prover/volume-sp1/core/src/volume.rs:122-124 | slots outside the mask never change |
| QuoteVolumes.ShareIsQuote | prover/volume-sp1/core/src/volume.rs:40-86 | what a log adds to an entrant is the absolute quote delta of the swap event it encodes, if that event is in the entrant's pinned pool, covered and at least the floor, and nothing otherwise; it counts once if it adds anything |
| QuoteVolumes.TotalsAreQuoteVolumes | prover/volume-sp1/core/src/volume.rs:118-128 | recording logs adds to each entrant the sum of these absolute quote deltas, and their number |
| QuoteVolumes.JournalQuotes | prover/volume-sp1/chunk/src/lib.rs:59-126 | the journal of an accepted run carries for each entrant the sum of the absolute quote deltas of the swaps in its pinned pool over the successful receipts of the range |
| SwapQualification.QualifySwap | packages/volume-proof/src/activity-qualification.ts:194-237 | the loop with early return computes `FirstCandidate`, whose meaning is `QualificationMeaning` |
| SwapQualification.QualificationMeaning | packages/volume-proof/src/activity-qualification.ts:194-237 | for both metrics the result is the least entrant whose token is a pool currency, whose other currency (native mapped to its wrapper) meets the rule of the metric, and whose quote amount reaches the floor; under unique buyers the rule is a positive floor and a purchase; there is no result exactly when nobody is eligible |
| SwapQualification.PerspectiveIrrelevant | packages/volume-proof/src/activity-qualification.ts:222 | amounts reported by the pool, negated, qualify exactly like those reported for the account |
| SwapQualification.RulesAgree | packages/volume-proof/src/activity-qualification.ts:194-237 | under valid terms and equal floors the first currency match and the pinned-pool rule give the same entrant, amount and direction for every swap in a pinned pool, native currency and wrapper entrants included |
| SwapQualification.PinnedLog | prover/volume-sp1/core/src/volume.rs:51-58 | a log that names a pinned pool is measured for that pool's slot, the only one |
| ReceiptReader.VisitLogs | prover/volume-sp1/chunk/src/receipt.rs:24-107 | visits all logs of a canonical receipt in order, whatever its status, and reports type, status, gas and count; any other string is refused |
| ReceiptReader.ReadTopics | prover/volume-sp1/chunk/src/receipt.rs:82-92 | at most four 32-byte topics are read into the fixed buffer |
| ReceiptReader.TakeExactly | prover/volume-sp1/chunk/src/receipt.rs:36-49 | pulls a fixed number of items and requires the end |
| ReceiptReader.CountFits | prover/volume-sp1/chunk/src/receipt.rs:99 | the log counter cannot overflow |
| Receipts.ReceiptCanonical | prover/volume-sp1/chunk/src/receipt.rs:24-107 | the strict decoder accepts exactly the canonical encodings of receipts of a supported type with at most four topics per log |
| Receipts.LogCanonical | prover/volume-sp1/chunk/src/receipt.rs:64-97 | a log is accepted exactly when it is the encoding of an address, at most four topics and data |
| BlockReceipts.DecodeEncode | packages/volume-proof/src/receipt-proof.ts:197-243 | decoding gives back every encoded receipt whose gas is below 2^256, and refuses exactly the others |
| BlockReceipts.BigGasRefused | packages/volume-proof/src/receipt-proof.ts:197-243 | a receipt without logs whose gas is 2^256 is encoded, and its encoding is not decoded again |
| BlockReceipts.FiveTopicsRefused | packages/volume-proof/src/chunk-frame.ts:739-743 | a successful receipt with one log of five topics passes every check of the capture, and the strict decoder refuses its encoding |
| BlockReceipts.CodecsAgree | packages/volume-proof/src/chunk-frame.ts:739-743 | a receipt that passes the capture check is read by the strict decoder as itself if and only if no log has more than four topics, and refused otherwise |
| BlockReceipts.StrictlyRead | packages/volume-proof/src/chunk-frame.ts:739-743 | of the encodable receipts the strict decoder reads exactly those that pass the capture check and have at most four topics in each log |
| BlockReceipts.DecodeMeaning | packages/volume-proof/src/receipt-proof.ts:215-243 | the TypeScript decoder reads a receipt from exactly the encodings of its fields, quantities of up to 32 bytes with leading zeros and an explicit type byte 0 included |
| BlockReceipts.Reencodable | packages/volume-proof/src/receipt-proof.ts:196-243 | a decoded receipt can be encoded again unless the data of some log is a list |
| Headers.HeaderItem | prover/volume-sp1/core/src/header.rs:28-68 | the header's own item reader accepts exactly what the shared reader accepts, with the same outcome |
| Headers.ParseNitroHeader | prover/volume-sp1/core/src/header.rs:90-132 | reads sixteen strings in a loop and checks them; accepts exactly what `HeaderCanonical` describes |
| Headers.HeaderCanonical | prover/volume-sp1/core/src/header.rs:90-132 | a string parses to a header exactly when it is the encoding of that header, whose gas used is within its limit |
| Headers.IntegerCanonical | prover/volume-sp1/core/src/header.rs:74-84 | an integer field is accepted exactly in its minimal form within its width |
| Framing.DecodeBlock | prover/volume-sp1/chunk/src/framing.rs:92-113 | accepts exactly what `FrameCanonical` describes; the count check loses nothing |
| Framing.EncodeBlock | prover/volume-sp1/chunk/src/framing.rs:120-140 | succeeds exactly when no two nodes share a hash, and its frame decodes to the sorted nodes |
| Framing.FrameCanonical | prover/volume-sp1/chunk/src/framing.rs:90-140 | a string decodes to a header and a node list exactly when the list ascends by hash and the string is their frame |
| Framing.FrameReader.Take | prover/volume-sp1/chunk/src/framing.rs:29-36 | takes a prefix, or fails and stays |
| Contexts.DecodeContext | prover/volume-sp1/chunk/src/framing.rs:69-88 | reads the fixed layout and the terms; accepts exactly what `ContextCanonical` describes |
| Contexts.EncodeContext | prover/volume-sp1/chunk/src/framing.rs:56-68 | encoding succeeds exactly when the terms are valid |
| Contexts.ContextCanonical | prover/volume-sp1/chunk/src/framing.rs:55-89 | a string decodes to a context exactly when its terms are valid and it is its encoding |
| ChunkTheorems.FrameReencoded | prover/volume-sp1/chunk/src/framing.rs:90-140 | encoding the content of an accepted frame again succeeds and gives the frame back, byte by byte |
| ChunkTheorems.FramesIdentical | prover/volume-sp1/chunk/src/framing.rs:90-113 | two accepted frames for one header with receipts are byte-identical, or two of their strings collide |
| ChunkTheorems.EmptyBlockFrames | prover/volume-sp1/trie/src/receipts.rs:267-273 | for a header without receipts exactly two corpora are accepted, none and the lone node 0x80, so there the frame is not unique |
| ChunkTheorems.EmptyBlockTwice | prover/volume-sp1/trie/src/receipts.rs:267-273 | every header without receipts has two different accepted frames for one and the same block |
| ChunkRun.EvaluateFrames | prover/volume-sp1/chunk/src/lib.rs:61-126 | the state machine succeeds exactly when the specification `Evaluate` yields an outcome, with the same journal and counters |
| ChunkRun.RunRange | prover/volume-sp1/chunk/src/lib.rs:78-116 | the block loop keeps a chain of evaluated blocks and its tally, and stops exactly at the end of the range and of the input |
| ChunkRun.RunBlock | prover/volume-sp1/chunk/src/lib.rs:82-109 | one block is framed, parsed, linked, traversed and counted as specified |
| ChunkRun.CountVisited | prover/volume-sp1/chunk/src/lib.rs:92-105 | the receipt callback through the lazy log reader is the specified visitor |
| ChunkRun.FinalJournal | prover/volume-sp1/chunk/src/lib.rs:117-121 | the journal of a finished run passes its own validation, so the final encoding cannot fail |
| Chunks.CountAllMeaning | prover/volume-sp1/chunk/src/lib.rs:92-105 | counting receipts is recording the logs of successful ones and adding up logs and failures within 64 bits |
| ChunkTheorems.EvaluatedTotals | prover/volume-sp1/chunk/src/lib.rs:61-126 | a run over a valid chain is accepted exactly when range, logs, sums and counters allow it, and its journal carries the exact sums over the logs of all successful receipts |
| ChunkTheorems.JournalReports | prover/volume-sp1/chunk/src/lib.rs:64-121 | the journal of an accepted run decodes, under its terms, to exactly the context it was given and to the exact sums |
| JournalFrames.JournalOfFrame | prover/volume-sp1/chunk/src/lib.rs:61-121 | the head of an accepted journal, byte by byte, from the context frame: the domain, the hash of all 4,352 terms bytes, the proof suite, the beneficiary, the mask, the range and the two block hashes |
| JournalFrames.RangeOfFrame | prover/volume-sp1/chunk/src/lib.rs:61-116 | an accepted run has one block frame for every height of the range its context frame gives, and that range lies between the start and snapshot block of its terms, all read off the bytes |
| JournalFrames.JournalHeadDecides | prover/volume-sp1/chunk/src/lib.rs:59-126 | the nine head words decide the whole outcome: two accepted runs with one journal head have the same totals and counters, or two strings hashed on the way collide |
| ChunkTheorems.ChainLinks | prover/volume-sp1/chunk/src/lib.rs:79-109 | the blocks of an accepted chain have consecutive numbers from the range start, each names the one before as its parent, and the end hash is that of the last |
| ChunkTheorems.WitnessIndependence | prover/volume-sp1/chunk/src/lib.rs:59-126 | two accepted runs with one context frame have the same outcome, or two different headers or nodes among their frames have one hash |
| ChunkTheorems.ChainBound | prover/volume-sp1/chunk/src/lib.rs:86-113 | backwards from a common end hash two chains of one length are the same chain |
| ChunkTheorems.RangeTiling | prover/volume-sp1/chunk/src/lib.rs:61-126 | accepted frame sequences over adjacent ranges concatenate: the joined context frame followed by the blocks of both is accepted exactly when no sum or counter overflows, with the entrant-wise sums and added counters |
| Capture.CaptureBlock | packages/volume-proof/src/chunk-frame.ts:792-801 | without collisions, for receipts that pass the checks, a frame is produced exactly when there is a capture of the block (right root, corpus of the rebuilt trie, lengths within 64 bits), and it is the only one |
| Capture.EmptyCapture | packages/volume-proof/src/chunk-frame.ts:796-801 | a block without receipts is captured exactly under the empty root, and its frame carries no node |
| Capture.CapturedBlockAccepted | packages/volume-proof/src/chunk-frame.ts:724-727 | a captured frame establishes exactly its receipts, in visit order |
| Capture.CapturedOutcome | prover/volume-sp1/chunk/src/lib.rs:59-126 | any accepted run that ends at the tip of a captured chain has the outcome of the captured frames, whatever its own frames are, or two of the strings collide |
| Capture.CapturedRun | packages/volume-proof/src/chunk-frame.ts:776-812 | a run over captured frames is accepted exactly when no log of a pinned pool is malformed and nothing overflows, and its journal carries the exact sums over the captured logs in transaction order |
| Batching.BatchProofs | packages/volume-proof/src/batching.ts:40-65 | fails exactly on a budget below the minimum or above 2^53 - 1 or a proof that cannot fit; the batches concatenate to the input, are non-empty, hold at most 64 proofs and carry the exact gas within budget; no order-preserving split into such batches has fewer |
| Batching.StaysAhead | packages/volume-proof/src/batching.ts:48-63 | a greedy split of what remains never needs more batches than any split that still has to cover at least as much |
| Batching.GasCharge | packages/volume-proof/src/batching.ts:48-54 | a proof without nodes is charged 173,584 gas, and each further node 16 gas for every byte and for 64 more |

## Left out

- Keccak is uninterpreted; nothing about its collision resistance is claimed.
- Network capture (`captureChunkFrames` beyond the pure part in `CaptureBlock`), RPC parsing, header encoding from RPC fields, the CLI, the keystore and the proof-system host and guest.
- `read_frame` and `write_frame`, and the portable frame file: a length prefix around each frame.
- The TypeScript versions of the terms, context and frame codecs: the same layouts as the Rust ones, with JavaScript's 2^53 limit on heights and lengths.
- V3 swap decoding, CREATE2 addresses, log index arithmetic and the wire schema.
- `execution_context_hash`: hashes five validated fields.
- Error values of terms, journal, header, receipt and framing checks: the kind of the error is modelled, its label is not, and specifications say when a check fails rather than which of several failures is reported first.
- The `usize` of the Rust code is taken to have 64 bits.
- The callback of `visit_receipts` is a pure function on a state instead of a closure over borrowed data; what it leaves behind after an error is not modelled, as the source discards it.
- `evaluate_frames` threads its totals as a value through the traversal; `VolumeAccumulator`, updated in place, is proved against the same function.
- `KeyPath` is a nibble sequence of at most eighteen instead of a copied fixed buffer with a length.
- The witness store is a map, and `Store::new` stops at the first repeated hash as the source does; iteration order of the map is not observable.
- The memo table of encoded nodes in receipt-proof.ts: a cache of a pure function.
- `fromRlp` and `toRlp` of viem are modelled as the canonical RLP codec. The inclusion verifier re-encodes and so accepts nothing else; `decodeReceipt` may accept non-canonical input that the model refuses.
- Hex strings and checksummed addresses are byte strings; hex case does not exist in the model.
- BuilderWalkerAgreement: receipt values are assumed shorter than 2^32 bytes, as JavaScript strings are; the same holds for Capture.EncodedReceiptsAgree and the captured blocks.
- BlockReceipts.DecodeEncode: the encoding is assumed to have fewer than 2^64 bytes.
- Batching: gas is computed over proof nodes as byte strings; transaction and log index and pool key of a proof play no part.
- Canonical-chain membership, deployment of the terms, rewards and proof verification are not claimed by the source either.
