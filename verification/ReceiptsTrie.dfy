/** The TypeScript `ReceiptsTrie`: construction from indexed receipts, the corpus and the inclusion
    proofs it emits, and its agreement with the Rust walker. */
module ReceiptsTries {
  import opened Prelude
  import opened HexPrefix
  import opened Tries
  import opened LookupProof
  import opened ReceiptKeys
  import opened WalkSpec
  import opened ReceiptWalk
  import opened VisitReceipts
  import opened Builder
  import opened BuiltTries
  import opened CanonicalTries
  import opened HashOrder
  import BigEndian
  import Rlp

  /** An encoded receipt and its transaction index. */
  datatype IndexedReceipt = IndexedReceipt(index: nat, value: Bytes)

  /** The trie with its entries by index; both are fixed at construction. */
  datatype ReceiptsTrie = ReceiptsTrie(root: Trie, entries: map<nat, Entry>)

  // ----- sorting entries by key -----

  function InsertEntry(e: Entry, sorted: seq<Entry>): seq<Entry> {
    if sorted == [] || !LexLess(sorted[0].key, e.key) then [e] + sorted
    else [sorted[0]] + InsertEntry(e, sorted[1..])
  }

  function SortEntries(entries: seq<Entry>): seq<Entry> {
    if entries == [] then [] else InsertEntry(entries[0], SortEntries(entries[1..]))
  }

  lemma {:induction false} InsertContent(e: Entry, sorted: seq<Entry>)
    ensures multiset(InsertEntry(e, sorted)) == multiset(sorted) + multiset{e}
  {
    if !(sorted == [] || !LexLess(sorted[0].key, e.key)) {
      InsertContent(e, sorted[1..]);
      assert sorted == [sorted[0]] + sorted[1..];
    }
  }

  lemma {:induction false} SortContent(entries: seq<Entry>)
    ensures multiset(SortEntries(entries)) == multiset(entries)
  {
    if entries != [] {
      SortContent(entries[1..]);
      InsertContent(entries[0], SortEntries(entries[1..]));
      assert entries == [entries[0]] + entries[1..];
    }
  }

  lemma SortKeepsEntries(entries: seq<Entry>)
    requires entries != [] && Distinct(entries)
    ensures Grouped(SortEntries(entries), 0)
    ensures forall e :: e in SortEntries(entries) <==> e in entries
  {
    var sorted := SortEntries(entries);
    SortContent(entries);
    assert |sorted| == |multiset(sorted)| == |multiset(entries)| == |entries|;
    forall e ensures e in sorted <==> e in entries {
      assert e in sorted <==> e in multiset(sorted);
      assert e in entries <==> e in multiset(entries);
    }
    forall i, j | 0 <= i < j < |sorted| ensures sorted[i].key != sorted[j].key {
      if sorted[i].key == sorted[j].key {
        SameKeySameEntry(entries, sorted[i], sorted[j]);
        RepeatedEntry(sorted, i, j);
        SingleEntry(entries, sorted[i]);
      }
    }
  }

  lemma {:induction false} InsertIncreasing(e: Entry, sorted: seq<Entry>)
    requires Increasing(sorted) && forall i :: 0 <= i < |sorted| ==> sorted[i].key != e.key
    ensures Increasing(InsertEntry(e, sorted))
  {
    hide LexLess;
    if sorted != [] {
      var first, rest := sorted[0], sorted[1..];
      LexTotal(first.key, e.key);
      if LexLess(first.key, e.key) {
        InsertIncreasing(e, rest);
        InsertContent(e, rest);
        var inserted := InsertEntry(e, rest);
        forall j | 0 <= j < |inserted| ensures LexLess(first.key, inserted[j].key) {
          assert inserted[j] in multiset(inserted);
          assert inserted[j] in multiset(rest) || inserted[j] == e;
          LaterEntry(sorted, inserted[j]);
        }
      } else {
        forall j | 0 <= j < |sorted| ensures LexLess(e.key, sorted[j].key) {
          if j > 0 {
            LexTransitive(e.key, first.key, sorted[j].key);
          }
        }
      }
    }
  }

  lemma LaterEntry(sorted: seq<Entry>, e: Entry)
    requires sorted != [] && Increasing(sorted)
    ensures e in multiset(sorted[1..]) ==> LexLess(sorted[0].key, e.key)
  {
    hide LexLess;
    if e in multiset(sorted[1..]) {
      var j :| 0 <= j < |sorted[1..]| && sorted[1..][j] == e;
      assert sorted[j + 1] == e;
    }
  }

  /** Sorting puts entries with different keys in strictly increasing key order. */
  lemma {:induction false} SortIncreasing(entries: seq<Entry>)
    requires Distinct(entries)
    ensures Increasing(SortEntries(entries))
  {
    if entries != [] {
      var first, rest := entries[0], entries[1..];
      SortIncreasing(rest);
      SortContent(rest);
      var sorted := SortEntries(rest);
      forall i | 0 <= i < |sorted| ensures sorted[i].key != first.key {
        assert sorted[i] in multiset(sorted);
        assert sorted[i] in multiset(rest);
        var j :| 0 <= j < |rest| && rest[j] == sorted[i];
        assert entries[j + 1] == rest[j];
      }
      InsertIncreasing(first, sorted);
    }
  }

  lemma SameKeySameEntry(entries: seq<Entry>, a: Entry, b: Entry)
    requires Distinct(entries) && a in entries && b in entries && a.key == b.key
    ensures a == b
  {
    var i :| 0 <= i < |entries| && entries[i] == a;
    var j :| 0 <= j < |entries| && entries[j] == b;
  }

  lemma RepeatedEntry(es: seq<Entry>, i: nat, j: nat)
    requires i < j < |es| && es[i] == es[j]
    ensures multiset(es)[es[i]] >= 2
  {
    assert es == es[..i] + [es[i]] + es[i + 1..j] + [es[j]] + es[j + 1..];
  }

  lemma {:induction false} SingleEntry(es: seq<Entry>, e: Entry)
    requires Distinct(es)
    ensures multiset(es)[e] <= 1
  {
    if es != [] {
      var front, last := es[..|es| - 1], es[|es| - 1];
      SingleEntry(front, e);
      assert es == front + [last];
      forall i | 0 <= i < |front| ensures front[i] != last {
        assert es[i] == front[i] && es[i].key != es[|es| - 1].key;
      }
      assert last !in multiset(front);
    }
  }

  // ----- construction -----

  /** The integers a floating-point number can hold: all are below 2^1024. */
  predicate IsIndex(index: nat) {
    |BigEndian.Minimal(index)| <= 128
  }

  /** The key of any transaction index: RLP of its shortest big-endian form. */
  function TrieKey(index: nat): Bytes {
    Rlp.EncodeItem(false, BigEndian.Minimal(index))
  }

  lemma TrieKeySize(index: nat)
    requires IsIndex(index)
    ensures 0 < |TrieKey(index)| <= 137
  {
    Rlp.EncodedSize(false, BigEndian.Minimal(index));
  }

  /** For 64-bit indices it is the walker's key. */
  lemma TrieKeyIsReceiptKey(index: nat)
    requires index < U64_LIMIT
    ensures IsIndex(index) && TrieKey(index) == ReceiptKey(index)
  {
    KeyIsRlp(index);
  }

  lemma TrieKeysInjective(i: nat, j: nat)
    requires IsIndex(i) && IsIndex(j) && NibblesOf(TrieKey(i)) == NibblesOf(TrieKey(j))
    ensures i == j
  {
    hide BigEndian.Minimal;
    hide BigEndian.Value;
    PackOfNibbles(TrieKey(i));
    PackOfNibbles(TrieKey(j));
    TrieKeySize(i);
    TrieKeySize(j);
    Rlp.ReadItemComplete(Rlp.Item(TrieKey(i), BigEndian.Minimal(i), false));
    Rlp.ReadItemComplete(Rlp.Item(TrieKey(j), BigEndian.Minimal(j), false));
    BigEndian.ValueOfMinimal(i);
    BigEndian.ValueOfMinimal(j);
  }

  function EntryOf(r: IndexedReceipt): Entry {
    Entry(NibblesOf(TrieKey(r.index)), r.value)
  }

  ghost predicate Indexable(receipts: seq<IndexedReceipt>) {
    forall i :: 0 <= i < |receipts| ==> IsIndex(receipts[i].index)
  }

  ghost predicate DistinctIndices(receipts: seq<IndexedReceipt>) {
    forall i, j :: 0 <= i < j < |receipts| ==> receipts[i].index != receipts[j].index
  }

  function EntriesOf(receipts: seq<IndexedReceipt>): (es: seq<Entry>)
    requires Indexable(receipts)
    ensures |es| == |receipts|
  {
    seq(|receipts|, i requires 0 <= i < |receipts| => EntryOf(receipts[i]))
  }

  lemma EntriesDistinct(receipts: seq<IndexedReceipt>)
    requires Indexable(receipts) && DistinctIndices(receipts)
    ensures Distinct(EntriesOf(receipts))
  {
    hide TrieKey;
    var es := EntriesOf(receipts);
    forall i, j | 0 <= i < j < |es| ensures es[i].key != es[j].key {
      if es[i].key == es[j].key {
        TrieKeysInjective(receipts[i].index, receipts[j].index);
      }
    }
  }

  /** The trie of a non-empty list of receipts with distinct indices. */
  function TrieOf(receipts: seq<IndexedReceipt>): Trie
    requires Indexable(receipts) && DistinctIndices(receipts) && receipts != []
  {
    EntriesDistinct(receipts);
    SortKeepsEntries(EntriesOf(receipts));
    Build(SortEntries(EntriesOf(receipts)), 0)
  }

  /** The entry map holds exactly the given receipts. */
  ghost predicate Records(entries: map<nat, Entry>, receipts: seq<IndexedReceipt>)
    requires Indexable(receipts)
  {
    && (forall i :: 0 <= i < |receipts| ==>
          receipts[i].index in entries && entries[receipts[i].index] == EntryOf(receipts[i]))
    && (forall x :: x in entries ==> exists i :: 0 <= i < |receipts| && receipts[i].index == x)
  }

  lemma RecordsAppend(entries: map<nat, Entry>, receipts: seq<IndexedReceipt>, r: IndexedReceipt)
    requires Indexable(receipts) && Records(entries, receipts) && DistinctIndices(receipts)
    requires IsIndex(r.index)
    ensures r.index in entries ==> !DistinctIndices(receipts + [r])
    ensures r.index !in entries ==>
              DistinctIndices(receipts + [r]) && Records(entries[r.index := EntryOf(r)], receipts + [r])
  {
    hide EntryOf;
    var all := receipts + [r];
    assert all[|receipts|] == r;
    if r.index in entries {
      var i :| 0 <= i < |receipts| && receipts[i].index == r.index;
      assert all[i].index == all[|receipts|].index;
    } else {
      var updated := entries[r.index := EntryOf(r)];
      forall x | x in updated ensures exists i :: 0 <= i < |all| && all[i].index == x {
        if x in entries {
          var i :| 0 <= i < |receipts| && receipts[i].index == x;
          assert all[i].index == x;
        }
      }
    }
  }

  lemma DistinctFront(receipts: seq<IndexedReceipt>, i: nat)
    requires i <= |receipts| && !DistinctIndices(receipts[..i])
    ensures !DistinctIndices(receipts)
  {
    var j, k :| 0 <= j < k < i && receipts[..i][j].index == receipts[..i][k].index;
    assert receipts[j].index == receipts[k].index;
  }

  /** The constructor. It fails on an empty list and on a repeated index, and on nothing else. */
  method NewReceiptsTrie(receipts: seq<IndexedReceipt>) returns (r: Option<ReceiptsTrie>)
    requires Indexable(receipts)
    ensures r.Some? <==> receipts != [] && DistinctIndices(receipts)
    ensures r.Some? ==> r.value.root == TrieOf(receipts) && Records(r.value.entries, receipts)
    ensures r.Some? ==> Increasing(SortEntries(EntriesOf(receipts)))
  {
    hide EntryOf;
    hide SortEntries;
    hide Build;
    if |receipts| == 0 {
      return None;
    }
    var entries: map<nat, Entry> := map[];
    var list: seq<Entry> := [];
    for i := 0 to |receipts|
      invariant DistinctIndices(receipts[..i]) && Records(entries, receipts[..i])
      invariant list == EntriesOf(receipts[..i])
    {
      assert receipts[..i + 1] == receipts[..i] + [receipts[i]];
      RecordsAppend(entries, receipts[..i], receipts[i]);
      if receipts[i].index in entries {
        DistinctFront(receipts, i + 1);
        return None;
      }
      var entry := EntryOf(receipts[i]);
      entries := entries[receipts[i].index := entry];
      list := list + [entry];
    }
    assert receipts[..|receipts|] == receipts;
    EntriesDistinct(receipts);
    SortKeepsEntries(list);
    SortIncreasing(list);
    var root := BuildNode(SortEntries(list), 0);
    r := Some(ReceiptsTrie(root, entries));
  }

  /** The built trie contains the receipts and nothing else. */
  lemma TrieContent(receipts: seq<IndexedReceipt>, key: Nibbles, value: Bytes)
    requires Indexable(receipts) && DistinctIndices(receipts) && receipts != []
    requires forall i :: 0 <= i < |receipts| ==> receipts[i].value != []
    ensures WellFormed(TrieOf(receipts))
    ensures Lookup(TrieOf(receipts), key) == Some(value) <==> Entry(key, value) in EntriesOf(receipts)
  {
    var es := EntriesOf(receipts);
    EntriesDistinct(receipts);
    SortKeepsEntries(es);
    var sorted := SortEntries(es);
    forall i | 0 <= i < |sorted| ensures sorted[i].value != [] {
      assert sorted[i] in es;
    }
    BuildWellFormed(sorted, 0);
    BuildContent(sorted, 0, key, value);
    assert sorted[0].key[..0] + key == key;
  }

  /** The trie is the one compressed trie of its receipts, so its root is the receipts root. */
  lemma CanonicalTrie(receipts: seq<IndexedReceipt>, t: Trie)
    requires Indexable(receipts) && DistinctIndices(receipts) && receipts != []
    requires forall i :: 0 <= i < |receipts| ==> receipts[i].value != []
    ensures Compressed(TrieOf(receipts))
    ensures Compressed(t) && (forall key, value :: Lookup(t, key) == Some(value) <==> Entry(key, value) in EntriesOf(receipts))
            <==> t == TrieOf(receipts)
  {
    var es := EntriesOf(receipts);
    EntriesDistinct(receipts);
    SortKeepsEntries(es);
    var sorted := SortEntries(es);
    forall i | 0 <= i < |sorted| ensures sorted[i].value != [] {
      assert sorted[i] in es;
    }
    hide SortEntries;
    hide Build;
    hide Lookup;
    hide Compressed;
    hide EntryOf;
    BuildCompressed(sorted, 0);
    forall key: Nibbles, value: Bytes
      ensures Lookup(TrieOf(receipts), key) == Some(value) <==> Entry(key, value) in es
    {
      TrieContent(receipts, key, value);
    }
    if Compressed(t) && (forall key, value :: Lookup(t, key) == Some(value) <==> Entry(key, value) in es) {
      BuildIsTheTrie(sorted, t);
    }
  }

  /** The order in which the receipts are given does not matter. */
  lemma AnyOrder(a: seq<IndexedReceipt>, b: seq<IndexedReceipt>)
    requires Indexable(a) && DistinctIndices(a) && a != []
    requires Indexable(b) && DistinctIndices(b) && b != []
    requires forall r :: r in a <==> r in b
    ensures TrieOf(a) == TrieOf(b)
  {
    var x, y := EntriesOf(a), EntriesOf(b);
    EntriesDistinct(a);
    EntriesDistinct(b);
    SortKeepsEntries(x);
    SortKeepsEntries(y);
    SortIncreasing(x);
    SortIncreasing(y);
    hide SortEntries;
    hide Build;
    hide EntryOf;
    hide Distinct;
    hide Increasing;
    forall e ensures e in x ==> e in y {
      EntryMoves(a, b, e);
    }
    forall e ensures e in y ==> e in x {
      EntryMoves(b, a, e);
    }
    IncreasingUnique(SortEntries(x), SortEntries(y));
  }

  lemma EntryMoves(a: seq<IndexedReceipt>, b: seq<IndexedReceipt>, e: Entry)
    requires Indexable(a) && Indexable(b) && forall r :: r in a ==> r in b
    ensures e in EntriesOf(a) ==> e in EntriesOf(b)
  {
    hide EntryOf;
    if e in EntriesOf(a) {
      var i :| 0 <= i < |a| && EntriesOf(a)[i] == e;
      assert a[i] in b;
      var j :| 0 <= j < |b| && b[j] == a[i];
      assert EntriesOf(b)[j] == e;
    }
  }

  // ----- dense lists -----

  /** Receipts 0..n-1 in order. */
  function Indexed(values: seq<Bytes>): (receipts: seq<IndexedReceipt>)
    ensures |receipts| == |values| && DistinctIndices(receipts)
    ensures |values| < U64_LIMIT ==> Indexable(receipts)
  {
    IndexedIndexable(|values|);
    seq(|values|, i requires 0 <= i < |values| => IndexedReceipt(i, values[i]))
  }

  lemma IndexedIndexable(count: nat)
    ensures count < U64_LIMIT ==> forall i :: 0 <= i < count ==> IsIndex(i)
  {
    if count < U64_LIMIT {
      forall i | 0 <= i < count ensures IsIndex(i) {
        TrieKeyIsReceiptKey(i);
      }
    }
  }

  lemma DenseTrieHolds(values: seq<Bytes>)
    requires 0 < |values| < U64_LIMIT && forall i :: 0 <= i < |values| ==> values[i] != []
    ensures WellFormed(TrieOf(Indexed(values))) && Holds(TrieOf(Indexed(values)), values)
  {
    hide TrieOf;
    hide Lookup;
    hide PathIndex;
    hide ReceiptKey;
    var t := TrieOf(Indexed(values));
    TrieContent(Indexed(values), [], []);
    forall i | 0 <= i < |values| ensures Lookup(t, NibblesOf(ReceiptKey(i))) == Some(values[i]) {
      DenseLookup(values, i);
    }
    forall key | Lookup(t, key).Some? ensures PathIndex(key).Ok? && PathIndex(key).value < |values| {
      DenseKey(values, key);
    }
  }

  lemma DenseLookup(values: seq<Bytes>, i: nat)
    requires i < |values| < U64_LIMIT && forall k :: 0 <= k < |values| ==> values[k] != []
    ensures Lookup(TrieOf(Indexed(values)), NibblesOf(ReceiptKey(i))) == Some(values[i])
  {
    hide TrieOf;
    hide TrieKey;
    hide ReceiptKey;
    hide Lookup;
    var receipts := Indexed(values);
    TrieKeyIsReceiptKey(i);
    assert EntriesOf(receipts)[i] == Entry(NibblesOf(ReceiptKey(i)), values[i]);
    TrieContent(receipts, NibblesOf(ReceiptKey(i)), values[i]);
  }

  lemma DenseKey(values: seq<Bytes>, key: Nibbles)
    requires 0 < |values| < U64_LIMIT && forall k :: 0 <= k < |values| ==> values[k] != []
    requires Lookup(TrieOf(Indexed(values)), key).Some?
    ensures PathIndex(key).Ok? && PathIndex(key).value < |values|
  {
    hide TrieOf;
    hide TrieKey;
    hide ReceiptKey;
    hide PathIndex;
    hide Lookup;
    var receipts := Indexed(values);
    var es, value := EntriesOf(receipts), Lookup(TrieOf(receipts), key).value;
    TrieContent(receipts, key, value);
    var i :| 0 <= i < |es| && es[i] == Entry(key, value);
    TrieKeyIsReceiptKey(i);
    PathIndexCanonical(key, i);
  }

  // ----- the corpus -----

  /** Collects every node of at least 32 bytes once, by hash, walking every path. */
  method CollectHashed(H: Keccak, t: Trie, seen: set<Hash>, out: seq<Bytes>)
    returns (seen': set<Hash>, out': seq<Bytes>)
    requires seen == Hashes(H, Elements(out)) && DistinctHashes(H, out)
    ensures seen' == Hashes(H, Elements(out')) && DistinctHashes(H, out')
    ensures Elements(out) <= Elements(out') <= Elements(out) + HashedNodes(H, t)
    ensures seen' == seen + Hashes(H, HashedNodes(H, t))
    decreases t, 1
  {
    seen', out' := seen, out;
    var encoded := EncodeNode(H, t);
    ghost var own := if |encoded| >= 32 then {encoded} else {};
    if |encoded| >= 32 {
      var hash := H(encoded);
      if hash !in seen {
        AddNode(H, out, encoded);
        seen' := seen' + {hash};
        out' := out' + [encoded];
      }
      assert Hashes(H, own) == {hash};
    }
    assert seen' == seen + Hashes(H, own);
    HashesUnion(H, own, HashedBelow(H, t));
    match t
    case Leaf(_, _) =>
    case Extension(_, child) =>
      seen', out' := CollectHashed(H, child, seen', out');
    case Branch(children, _) =>
      seen', out' := CollectSlots(H, children, seen', out');
  }

  method CollectSlots(H: Keccak, slots: seq<Slot>, seen: set<Hash>, out: seq<Bytes>)
    returns (seen': set<Hash>, out': seq<Bytes>)
    requires seen == Hashes(H, Elements(out)) && DistinctHashes(H, out)
    ensures seen' == Hashes(H, Elements(out')) && DistinctHashes(H, out')
    ensures Elements(out) <= Elements(out') <= Elements(out) + HashedInSlots(H, slots)
    ensures seen' == seen + Hashes(H, HashedInSlots(H, slots))
    decreases slots, 0
  {
    seen', out' := seen, out;
    if slots != [] {
      match slots[0] {
        case Vacant =>
        case Occupied(node) =>
          assert slots decreases to slots[0];
          seen', out' := CollectHashed(H, node, seen', out');
      }
      HashesUnion(H, HashedInSlot(H, slots[0]), HashedInSlots(H, slots[1..]));
      seen', out' := CollectSlots(H, slots[1..], seen', out');
    }
  }

  lemma AddNode(H: Keccak, out: seq<Bytes>, node: Bytes)
    requires DistinctHashes(H, out) && H(node) !in Hashes(H, Elements(out))
    ensures DistinctHashes(H, out + [node])
    ensures Elements(out + [node]) == Elements(out) + {node}
    ensures Hashes(H, Elements(out + [node])) == Hashes(H, Elements(out)) + {H(node)}
  {
    forall i | 0 <= i < |out| ensures H(out[i]) != H(node) {
      assert out[i] in Elements(out);
    }
    HashesUnion(H, Elements(out), {node});
  }

  /** The hashed nodes of the trie, each hash once, in ascending hash order. Without collisions they
      are all of them. */
  method HashedNodeList(H: Keccak, t: Trie) returns (nodes: seq<Bytes>)
    ensures HashAscending(H, nodes)
    ensures Elements(nodes) <= HashedNodes(H, t)
    ensures Hashes(H, Elements(nodes)) == Hashes(H, HashedNodes(H, t))
    ensures !Collides(H, HashedNodes(H, t)) ==> Elements(nodes) == HashedNodes(H, t)
  {
    var seen, out := CollectHashed(H, t, {}, []);
    SortAscending(H, out);
    SortElements(H, out);
    nodes := SortByHash(H, out);
    if !Collides(H, HashedNodes(H, t)) {
      forall b | b in HashedNodes(H, t) ensures b in Elements(nodes) {
        assert H(b) in Hashes(H, Elements(out));
        var c :| c in Elements(out) && H(c) == H(b);
      }
    }
  }

  // ----- agreement with the walker -----

  /** What the builder makes of receipts 0..n-1, the walker accepts as exactly these receipts, as soon
      as the root node is long enough to be listed; a shorter root is never listed, and then the
      walker has no root to start from. */
  lemma BuilderWalkerAgreement(H: Keccak, values: seq<Bytes>, nodes: seq<Bytes>)
    requires 0 < |values| < U64_LIMIT
    requires forall i :: 0 <= i < |values| ==> 0 < |values[i]| < SMALL
    requires var t := TrieOf(Indexed(values));
             && !Collides(H, Corpus(H, t) + {[0x80]})
             && DistinctHashes(H, nodes) && Elements(nodes) == HashedNodes(H, t)
    ensures var t := TrieOf(Indexed(values));
            CompleteReceipts(H, RootHash(H, t), nodes) ==
            if |EncodeNode(H, t)| >= 32 then Some(values) else None
  {
    var t := TrieOf(Indexed(values));
    DenseTrieHolds(values);
    DenseTrieSmall(values);
    SmallAddressable(H, t);
    RootIsNotEmpty(H, t);
    var corpus := Corpus(H, t) + {[0x80]};
    assert EncodeNode(H, t) in corpus && [0x80] in corpus;
    if |EncodeNode(H, t)| >= 32 {
      CommitsUnique(H, RootHash(H, t), nodes, t, values);
    } else if CompleteReceipts(H, RootHash(H, t), nodes).Some? {
      var u, others :| Commits(H, RootHash(H, t), nodes, u, others);
      assert EncodeNode(H, u) in Elements(nodes);
      assert EncodeNode(H, u) in corpus;
      HashedNodesLong(H, t, EncodeNode(H, u));
    }
  }

  /** The same for receipts 0..n-1 given in any order. */
  lemma AnyOrderAgreement(H: Keccak, receipts: seq<IndexedReceipt>, values: seq<Bytes>, nodes: seq<Bytes>)
    requires 0 < |values| < U64_LIMIT
    requires Indexable(receipts) && DistinctIndices(receipts) && receipts != []
    requires forall r :: r in receipts <==> r in Indexed(values)
    requires forall i :: 0 <= i < |values| ==> 0 < |values[i]| < SMALL
    requires var t := TrieOf(receipts);
             && !Collides(H, Corpus(H, t) + {[0x80]})
             && DistinctHashes(H, nodes) && Elements(nodes) == HashedNodes(H, t)
    ensures var t := TrieOf(receipts);
            CompleteReceipts(H, RootHash(H, t), nodes) ==
            if |EncodeNode(H, t)| >= 32 then Some(values) else None
  {
    hide TrieOf;
    hide CompleteReceipts;
    AnyOrder(receipts, Indexed(values));
    BuilderWalkerAgreement(H, values, nodes);
  }

  lemma DenseTrieSmall(values: seq<Bytes>)
    requires 0 < |values| < U64_LIMIT
    requires forall i :: 0 <= i < |values| ==> |values[i]| < SMALL
    ensures Small(TrieOf(Indexed(values)))
  {
    ReceiptsTrieSmall(Indexed(values));
  }

  lemma ReceiptsTrieSmall(receipts: seq<IndexedReceipt>)
    requires Indexable(receipts) && DistinctIndices(receipts) && receipts != []
    requires forall i :: 0 <= i < |receipts| ==> |receipts[i].value| < SMALL
    ensures Small(TrieOf(receipts))
  {
    var es := EntriesOf(receipts);
    EntriesDistinct(receipts);
    SortKeepsEntries(es);
    var sorted := SortEntries(es);
    forall i | 0 <= i < |sorted| ensures |sorted[i].key| < SMALL && |sorted[i].value| < SMALL {
      assert sorted[i] in es;
      var k :| 0 <= k < |es| && es[k] == sorted[i];
      TrieKeySize(receipts[k].index);
    }
    BuildSmall(sorted, 0);
  }

  lemma {:induction false} HashedNodesLong(H: Keccak, t: Trie, b: Bytes)
    requires b in HashedNodes(H, t)
    ensures |b| >= 32
    decreases t, 1
  {
    if b in HashedBelow(H, t) {
      match t
      case Leaf(_, _) =>
      case Extension(_, child) => HashedNodesLong(H, child, b);
      case Branch(children, _) => HashedSlotsLong(H, children, b);
    }
  }

  lemma {:induction false} HashedSlotsLong(H: Keccak, slots: seq<Slot>, b: Bytes)
    requires b in HashedInSlots(H, slots)
    ensures |b| >= 32
    decreases slots, 0
  {
    if b in HashedInSlot(H, slots[0]) {
      match slots[0]
      case Vacant =>
      case Occupied(node) =>
        assert slots decreases to slots[0];
        HashedNodesLong(H, node, b);
    } else {
      HashedSlotsLong(H, slots[1..], b);
    }
  }

  /** Values of at least 32 bytes always make a long root: agreement is then unconditional. */
  lemma LongReceiptsAgree(H: Keccak, values: seq<Bytes>, nodes: seq<Bytes>)
    requires 0 < |values| < U64_LIMIT
    requires forall i :: 0 <= i < |values| ==> 32 <= |values[i]| < SMALL
    requires var t := TrieOf(Indexed(values));
             && !Collides(H, Corpus(H, t) + {[0x80]})
             && DistinctHashes(H, nodes) && Elements(nodes) == HashedNodes(H, t)
    ensures CompleteReceipts(H, RootHash(H, TrieOf(Indexed(values))), nodes) == Some(values)
  {
    var receipts := Indexed(values);
    var es := EntriesOf(receipts);
    EntriesDistinct(receipts);
    SortKeepsEntries(es);
    var sorted := SortEntries(es);
    forall i | 0 <= i < |sorted| ensures |sorted[i].value| >= 32 {
      assert sorted[i] in es;
    }
    BuildLongValues(sorted, 0);
    DenseTrieHolds(values);
    DenseTrieSmall(values);
    SmallAddressable(H, TrieOf(receipts));
    LongNodes(H, TrieOf(receipts));
    BuilderWalkerAgreement(H, values, nodes);
  }
}
