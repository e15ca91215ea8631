/** Complete receipt traversal: `visit_receipts` accepts exactly the corpora of tries that hold
    receipts 0..m-1, and visits exactly these. */
module VisitReceipts {
  import opened Prelude
  import opened HexPrefix
  import opened Tries
  import opened NodeCodec
  import opened Unfolding
  import opened LookupProof
  import opened ReceiptKeys
  import opened WalkSpec
  import opened ReceiptWalk
  import opened Traversal

  // ----- tries that hold a list of receipts -----

  /** The content of the trie is values[0], ..., values[m-1] under the keys of 0, ..., m-1. */
  ghost predicate Holds(t: Trie, values: seq<Bytes>)
    requires |values| < U64_LIMIT
  {
    && (forall i :: 0 <= i < |values| ==> Lookup(t, NibblesOf(ReceiptKey(i))) == Some(values[i]))
    && (forall key :: Lookup(t, key).Some? ==>
          PathIndex(key).Ok? && PathIndex(key).value < |values|)
  }

  /** The entries of such a trie, in key order. */
  ghost function ReceiptEntries(values: seq<Bytes>): (es: seq<Entry>)
    requires |values| < U64_LIMIT
    ensures |es| == |values|
  {
    VisitOrderIsSorted(|values|);
    seq(|values|, k requires 0 <= k < |values| => EntryAt(values, VisitAt(|values|, k)))
  }

  function EntryAt(values: seq<Bytes>, i: nat): Entry
    requires i < |values| < U64_LIMIT
  {
    Entry(NibblesOf(ReceiptKey(i)), values[i])
  }

  /** The visits a complete traversal makes: 1..127, then 0, then 128 and up. */
  ghost function ReceiptVisits(values: seq<Bytes>): (visits: seq<Visit>)
    ensures |visits| == |values|
  {
    VisitOrderIsSorted(|values|);
    seq(|values|, k requires 0 <= k < |values| =>
      Visit(VisitAt(|values|, k), values[VisitAt(|values|, k)]))
  }

  lemma ReceiptEntriesIncreasing(values: seq<Bytes>)
    requires |values| < U64_LIMIT
    ensures Increasing(ReceiptEntries(values))
  {
    var n, es := |values|, ReceiptEntries(values);
    VisitOrderIsSorted(n);
    forall i, j | 0 <= i < j < n ensures LexLess(es[i].key, es[j].key) {
      KeyOrder(VisitAt(n, i), VisitAt(n, j));
      NibbleOrder(ReceiptKey(VisitAt(n, i)), ReceiptKey(VisitAt(n, j)));
    }
  }

  lemma ReceiptEntriesKeyed(values: seq<Bytes>)
    requires |values| < U64_LIMIT
    ensures Keyed(ReceiptEntries(values)) && VisitsOf(ReceiptEntries(values)) == ReceiptVisits(values)
  {
    var n, es := |values|, ReceiptEntries(values);
    VisitOrderIsSorted(n);
    forall k | 0 <= k < n ensures PathIndex(es[k].key) == Ok(VisitAt(n, k)) {
      PathIndexCanonical(es[k].key, VisitAt(n, k));
    }
  }

  lemma EntryIn(values: seq<Bytes>, i: nat)
    requires i < |values| < U64_LIMIT
    ensures EntryAt(values, i) in ReceiptEntries(values)
  {
    VisitOrderIsSorted(|values|);
    assert ReceiptEntries(values)[PositionOf(|values|, i)] == EntryAt(values, i);
  }

  /** A trie holds the receipts exactly when these are its entries, so its traversal order is fixed. */
  lemma HeldEntries(t: Trie, values: seq<Bytes>)
    requires WellFormed(t) && |values| < U64_LIMIT && Holds(t, values)
    ensures Entries(t, []) == ReceiptEntries(values)
  {
    hide PathIndex;
    hide ReceiptKey;
    hide Entries;
    hide Lookup;
    var es, expected := Entries(t, []), ReceiptEntries(values);
    EntriesIncreasing(t, []);
    ReceiptEntriesIncreasing(values);
    forall e | e in es ensures e in expected {
      assert [] + e.key == e.key;
      EntriesAreLookups(t, [], e.key, e.value);
      HeldEntry(t, values, e);
    }
    forall e | e in expected ensures e in es {
      VisitOrderIsSorted(|values|);
      var k :| 0 <= k < |expected| && expected[k] == e;
      assert [] + e.key == e.key;
      EntriesAreLookups(t, [], e.key, e.value);
    }
    IncreasingUnique(es, expected);
  }

  lemma HeldEntry(t: Trie, values: seq<Bytes>, e: Entry)
    requires |values| < U64_LIMIT && Holds(t, values) && Lookup(t, e.key) == Some(e.value)
    ensures e in ReceiptEntries(values)
  {
    var i := PathIndex(e.key).value;
    PathIndexCanonical(e.key, i);
    EntryIn(values, i);
  }

  lemma EntriesHeld(t: Trie, values: seq<Bytes>)
    requires WellFormed(t) && |values| < U64_LIMIT && Entries(t, []) == ReceiptEntries(values)
    ensures Holds(t, values)
  {
    forall i | 0 <= i < |values| ensures Lookup(t, NibblesOf(ReceiptKey(i))) == Some(values[i]) {
      EntryIn(values, i);
      assert [] + NibblesOf(ReceiptKey(i)) == NibblesOf(ReceiptKey(i));
      EntriesAreLookups(t, [], NibblesOf(ReceiptKey(i)), values[i]);
    }
    forall key | Lookup(t, key).Some? ensures PathIndex(key).Ok? && PathIndex(key).value < |values| {
      assert [] + key == key;
      EntriesAreLookups(t, [], key, Lookup(t, key).value);
      var k :| 0 <= k < |values| && ReceiptEntries(values)[k] == Entry(key, Lookup(t, key).value);
      VisitOrderIsSorted(|values|);
      PathIndexCanonical(key, VisitAt(|values|, k));
    }
  }

  /** Some key is as long as the span, so the span of a receipt trie fits the key capacity. */
  lemma {:induction false} SpanAttained(t: Trie) returns (key: Nibbles)
    requires WellFormed(t)
    ensures |key| == Span(t) && Lookup(t, key).Some?
    decreases t
  {
    match t
    case Leaf(path, value) => key := path;
    case Extension(path, child) =>
      var below := SpanAttained(child);
      key := path + below;
      assert key[|path|..] == below;
    case Branch(children, value) =>
      if i :| 0 <= i < 16 && children[i].Occupied? && 1 + Span(children[i].node) == SlotSpan(children) {
        var below := SpanAttained(children[i].node);
        key := [i] + below;
        assert key[1..] == below;
      } else {
        SlotSpanAttained(children);
        key := [];
      }
  }

  lemma {:induction false} SlotSpanAttained(slots: seq<Slot>)
    ensures SlotSpan(slots) == 0 ==> forall i :: 0 <= i < |slots| ==> slots[i].Vacant?
    ensures SlotSpan(slots) > 0 ==>
              exists i :: 0 <= i < |slots| && slots[i].Occupied? && 1 + Span(slots[i].node) == SlotSpan(slots)
  {
    if slots != [] {
      SlotSpanAttained(slots[1..]);
      if SlotSpan(slots) == 0 {
        forall i | 0 <= i < |slots| ensures slots[i].Vacant? {
          assert i > 0 ==> slots[1..][i - 1] == slots[i];
        }
      }
      if SlotSpan(slots) > 0 && SpanOfSlot(slots[0]) < SlotSpan(slots) {
        var i :| 0 <= i < |slots[1..]| && slots[1..][i].Occupied?
                 && 1 + Span(slots[1..][i].node) == SlotSpan(slots[1..]);
        assert slots[i + 1] == slots[1..][i];
      }
    }
  }

  lemma HeldSpan(t: Trie, values: seq<Bytes>)
    requires WellFormed(t) && |values| < U64_LIMIT && Holds(t, values)
    ensures Span(t) <= KEY_CAPACITY && values != []
  {
    var key := SpanAttained(t);
    PathIndexCanonical(key, PathIndex(key).value);
  }

  // ----- dense index sets -----

  /** Distinct numbers below their count are all the numbers below it. */
  lemma {:induction false} Pigeonhole(s: set<nat>, n: nat)
    requires |s| == n && forall x :: x in s ==> x < n
    ensures forall x :: 0 <= x < n ==> x in s
  {
    if n > 0 {
      if n - 1 in s {
        Pigeonhole(s - {n - 1}, n - 1);
      } else {
        Crowded(s, n - 1);
      }
    }
  }

  lemma {:induction false} Crowded(s: set<nat>, n: nat)
    requires forall x :: x in s ==> x < n
    ensures |s| <= n
  {
    if n == 0 {
      assert s == {};
    } else {
      Crowded(s - {n - 1}, n - 1);
    }
  }

  ghost function IndexSet(es: seq<Entry>): set<nat>
    requires Keyed(es)
  {
    set i | 0 <= i < |es| :: PathIndex(es[i].key).value
  }

  lemma {:induction false} IndexSetSize(es: seq<Entry>)
    requires Keyed(es) && Increasing(es)
    ensures |IndexSet(es)| == |es|
  {
    hide PathIndex;
    hide LexLess;
    if es != [] {
      var front, last := es[..|es| - 1], es[|es| - 1];
      IndexSetSize(front);
      assert es == front + [last];
      IndexSetAppend(front, last);
      if PathIndex(last.key).value in IndexSet(front) {
        var i :| 0 <= i < |front| && PathIndex(front[i].key).value == PathIndex(last.key).value;
        assert LexLess(es[i].key, es[|es| - 1].key);
        SameIndexSameKey(front[i], last);
      }
    }
  }

  lemma IndexSetAppend(front: seq<Entry>, last: Entry)
    requires Keyed(front) && PathIndex(last.key).Ok?
    ensures Keyed(front + [last])
    ensures IndexSet(front + [last]) == IndexSet(front) + {PathIndex(last.key).value}
  {
    hide PathIndex;
    var es := front + [last];
    assert es[|front|] == last;
    forall x | x in IndexSet(front) ensures x in IndexSet(es) {
      var i :| 0 <= i < |front| && PathIndex(front[i].key).value == x;
      assert es[i] == front[i];
    }
  }

  lemma SameIndexSameKey(a: Entry, b: Entry)
    requires PathIndex(a.key).Ok? && PathIndex(a.key) == PathIndex(b.key)
    ensures a.key == b.key && !LexLess(a.key, b.key)
  {
    PathIndexCanonical(a.key, PathIndex(a.key).value);
    PathIndexCanonical(b.key, PathIndex(b.key).value);
    LexIrreflexive(a.key);
  }

  /** Increasing keys with greatest index count-1 are exactly the keys of 0..count-1: the values can be
      listed by index. */
  lemma DenseEntries(es: seq<Entry>) returns (values: seq<Bytes>)
    requires Keyed(es) && Increasing(es) && es != [] && |es| < U64_LIMIT && Greatest(|es| - 1, es)
    ensures |values| == |es| && es == ReceiptEntries(values)
  {
    hide PathIndex;
    hide ReceiptKey;
    hide LexLess;
    var n := |es|;
    IndexSetSize(es);
    assert forall x :: x in IndexSet(es) ==> x < n;
    Pigeonhole(IndexSet(es), n);
    values := seq(n, i requires 0 <= i < n => ValueAt(es, i));
    ReceiptEntriesIncreasing(values);
    var expected := ReceiptEntries(values);
    forall e | e in es ensures e in expected {
      var k :| 0 <= k < n && es[k] == e;
      var i := PathIndex(e.key).value;
      assert i in IndexSet(es);
      PathIndexCanonical(e.key, i);
      ValueAtIs(es, i, k);
      EntryIn(values, i);
    }
    forall e | e in expected ensures e in es {
      VisitOrderIsSorted(n);
      var k :| 0 <= k < n && expected[k] == e;
      EntryIsThere(es, values, VisitAt(n, k));
    }
    IncreasingUnique(es, expected);
  }

  ghost function ValueAt(es: seq<Entry>, i: nat): Bytes
    requires Keyed(es) && i in IndexSet(es)
  {
    var k :| 0 <= k < |es| && PathIndex(es[k].key).value == i;
    es[k].value
  }

  lemma ValueAtIs(es: seq<Entry>, i: nat, k: nat)
    requires Keyed(es) && Increasing(es) && k < |es| && PathIndex(es[k].key).value == i
    requires i in IndexSet(es)
    ensures ValueAt(es, i) == es[k].value
  {
    var j :| 0 <= j < |es| && PathIndex(es[j].key).value == i && ValueAt(es, i) == es[j].value;
    PathIndexCanonical(es[k].key, i);
    PathIndexCanonical(es[j].key, i);
    LexIrreflexive(es[k].key);
  }

  lemma EntryIsThere(es: seq<Entry>, values: seq<Bytes>, i: nat)
    requires Keyed(es) && Increasing(es) && |values| == |es| < U64_LIMIT && i < |es|
    requires i in IndexSet(es) && values[i] == ValueAt(es, i)
    ensures EntryAt(values, i) in es
  {
    var k :| 0 <= k < |es| && PathIndex(es[k].key).value == i;
    PathIndexCanonical(es[k].key, i);
    ValueAtIs(es, i, k);
  }

  // ----- the complete relation -----

  /** The corpus is exactly the nodes of a trie with this root that holds these receipts. */
  ghost predicate Commits(H: Keccak, root: Hash, nodes: seq<Bytes>, t: Trie, values: seq<Bytes>) {
    && root == RootHash(H, t) != EmptyRoot(H)
    && WellFormed(t) && Addressable(H, t)
    && |values| < U64_LIMIT && Holds(t, values)
    && DistinctHashes(H, nodes) && Elements(nodes) == Corpus(H, t)
  }

  /** The receipts a root and a corpus establish, if they establish a complete list. */
  ghost function CompleteReceipts(H: Keccak, root: Hash, nodes: seq<Bytes>): Option<seq<Bytes>> {
    if root == EmptyRoot(H) then
      if nodes == [] || nodes == [[0x80]] then Some([]) else None
    else if exists t, values :: Commits(H, root, nodes, t, values) then
      var t, values :| Commits(H, root, nodes, t, values);
      Some(values)
    else None
  }

  ghost predicate StoreHolds(H: Keccak, content: Store, nodes: seq<Bytes>) {
    && Consistent(H, content) && Stored(H, content, Elements(nodes))
    && content.Keys == Hashes(H, Elements(nodes))
  }

  lemma StoredBytes(H: Keccak, content: Store, nodes: seq<Bytes>, h: Hash)
    requires StoreHolds(H, content, nodes) && h in content
    ensures content[h] in Elements(nodes)
  {
    var b :| b in Elements(nodes) && H(b) == h;
  }

  /** A committed trie is what the walk from its root resolves. */
  lemma CommittedWalk(H: Keccak, root: Hash, nodes: seq<Bytes>, content: Store, t: Trie, values: seq<Bytes>)
    requires Commits(H, root, nodes, t, values) && StoreHolds(H, content, nodes)
    ensures root in content && content[root] == EncodeNode(H, t)
    ensures Resolved(H, content, t, KEY_CAPACITY)
    ensures FrameEntries(content, Frame(content[root], [])) == Some(ReceiptEntries(values))
    ensures {root} + FrameRefs(H, content, Frame(content[root], [])) == content.Keys
    ensures values != []
  {
    assert EncodeNode(H, t) in Elements(nodes);
    HeldSpan(t, values);
    HeldEntries(t, values);
    UnfoldComplete(H, content, t, KEY_CAPACITY);
    HashesUnion(H, {EncodeNode(H, t)}, HashedBelow(H, t));
    assert Hashes(H, {EncodeNode(H, t)}) == {root};
  }

  /** Conversely, a walk that resolves, with dense keys and every node used, is of a committed trie. */
  lemma WalkCommits(H: Keccak, root: Hash, nodes: seq<Bytes>, content: Store)
    returns (t: Trie, values: seq<Bytes>)
    requires root != EmptyRoot(H) && DistinctHashes(H, nodes) && StoreHolds(H, content, nodes)
    requires root in content
    requires var total := FrameEntries(content, Frame(content[root], []));
             total.Some? && Keyed(total.value) && 0 < |total.value| < U64_LIMIT
             && Greatest(|total.value| - 1, total.value)
    requires {root} + FrameRefs(H, content, Frame(content[root], [])) == content.Keys
    ensures Commits(H, root, nodes, t, values)
    ensures Resolved(H, content, t, KEY_CAPACITY) && content[root] == EncodeNode(H, t)
    ensures |values| == |FrameEntries(content, Frame(content[root], [])).value|
  {
    t := Unfold(content, content[root], KEY_CAPACITY).value;
    UnfoldSound(H, content, content[root], KEY_CAPACITY);
    EntriesIncreasing(t, []);
    hide Entries;
    hide Unfold;
    hide PathIndex;
    hide ReceiptEntries;
    values := DenseEntries(Entries(t, []));
    EntriesHeld(t, values);
    CorpusIsStore(H, root, nodes, content, t);
  }

  lemma CorpusIsStore(H: Keccak, root: Hash, nodes: seq<Bytes>, content: Store, t: Trie)
    requires StoreHolds(H, content, nodes) && root in content && content[root] == EncodeNode(H, t)
    requires Stored(H, content, HashedBelow(H, t))
    requires {root} + Hashes(H, HashedBelow(H, t)) == content.Keys
    ensures Elements(nodes) == Corpus(H, t)
  {
    forall b | b in Elements(nodes) ensures b in Corpus(H, t) {
      assert H(b) in content && content[H(b)] == b;
    }
    forall b | b in Corpus(H, t) ensures b in Elements(nodes) {
      StoredBytes(H, content, nodes, H(b));
    }
  }

  /** The list of receipts is determined by the root and the corpus. */
  lemma CommitsUnique(H: Keccak, root: Hash, nodes: seq<Bytes>, t: Trie, values: seq<Bytes>)
    requires Commits(H, root, nodes, t, values)
    ensures CompleteReceipts(H, root, nodes) == Some(values)
  {
    var complete := CompleteReceipts(H, root, nodes);
    var u :| Commits(H, root, nodes, u, complete.value);
    CommitsAgree(H, root, nodes, t, values, u, complete.value);
  }

  lemma CommitsAgree(
      H: Keccak, root: Hash, nodes: seq<Bytes>, t: Trie, values: seq<Bytes>, u: Trie, others: seq<Bytes>)
    requires Commits(H, root, nodes, t, values) && Commits(H, root, nodes, u, others)
    ensures t == u && values == others
  {
    NoCollision(H, nodes);
    RootBindsTrie(H, t, u);
    HeldListUnique(t, values, others);
  }

  lemma NoCollision(H: Keccak, nodes: seq<Bytes>)
    requires DistinctHashes(H, nodes)
    ensures !Collides(H, Elements(nodes) + Elements(nodes))
  {
  }

  /** A trie holds one list only. */
  lemma HeldListUnique(t: Trie, values: seq<Bytes>, others: seq<Bytes>)
    requires |values| < U64_LIMIT && |others| < U64_LIMIT
    requires Holds(t, values) && Holds(t, others)
    ensures values == others
  {
    HeldListLength(t, values, others);
    HeldListLength(t, others, values);
    forall i | 0 <= i < |values| ensures values[i] == others[i] {
      assert Lookup(t, NibblesOf(ReceiptKey(i))) == Some(values[i]);
    }
  }

  lemma HeldListLength(t: Trie, values: seq<Bytes>, others: seq<Bytes>)
    requires |values| < U64_LIMIT && |others| < U64_LIMIT
    requires Holds(t, values) && Holds(t, others)
    ensures |values| <= |others|
  {
    if |values| > |others| {
      var key := NibblesOf(ReceiptKey(|others|));
      assert Lookup(t, key) == Some(values[|others|]);
      PathIndexCanonical(key, |others|);
    }
  }

  lemma GreatestReceipt(values: seq<Bytes>, m: nat)
    requires 0 < |values| < U64_LIMIT && Keyed(ReceiptEntries(values))
    ensures Greatest(m, ReceiptEntries(values)) <==> m == |values| - 1
  {
    hide PathIndex;
    var n, es := |values|, ReceiptEntries(values);
    VisitOrderIsSorted(n);
    forall k | 0 <= k < n ensures PathIndex(es[k].key) == Ok(VisitAt(n, k)) {
      PathIndexCanonical(es[k].key, VisitAt(n, k));
    }
    assert PathIndex(es[PositionOf(n, n - 1)].key).value == n - 1;
  }

  /** The closing step: the path of the next key is extracted from the store and verifies as absent. */
  lemma NextIsExcluded(H: Keccak, root: Hash, nodes: seq<Bytes>, content: Store, t: Trie, values: seq<Bytes>)
    requires Commits(H, root, nodes, t, values) && Resolved(H, content, t, KEY_CAPACITY)
    ensures var key := ReceiptKey(|values|);
            var below := PathNodes(content, EncodeNode(H, t), NibblesOf(key));
            below.Ok? && VerifyRaw(H, root, key, [EncodeNode(H, t)] + below.value) == Ok(Absent)
  {
    var key := ReceiptKey(|values|);
    PathNodesMinimal(H, content, t, KEY_CAPACITY, NibblesOf(key));
    MinimalSupplies(H, t, NibblesOf(key));
    SuppliedProofAccepted(H, t, key, MinimalProof(H, t, NibblesOf(key)));
    PathIndexCanonical(NibblesOf(key), |values|);
    assert Lookup(t, NibblesOf(key)).None?;
  }

  // ----- the method -----

  datatype Completed<+S> = Completed(count: nat, state: S)

  /** Looks a key up through a proof extracted from the store. */
  method LookupInStore(H: Keccak, store: WitnessStore, root: Hash, key: Bytes) returns (r: Result<Answer, Error>)
    requires root in store.Content()
    modifies store
    ensures var below := PathNodes(old(store.Content()), old(store.Content())[root], NibblesOf(key));
            r == if below.Err? then Err(below.error)
                 else VerifyRaw(H, root, key, [old(store.Content())[root]] + below.value)
  {
    var proof :- store.PathProof(root, key);
    r := VerifyProof(H, root, key, proof);
  }

  /** How the traversal ends, given the list the root and corpus establish. */
  ghost predicate Concludes<S, E>(
    complete: Option<seq<Bytes>>, visit: (S, nat, Bytes) -> Result<S, E>, init: S,
    r: Result<Completed<S>, WalkError<E>>)
  {
    match complete
    case None => r.Err?
    case Some(values) =>
      match FoldVisits(visit, init, ReceiptVisits(values))
      case Ok(state) => r == Ok(Completed(|values|, state))
      case Err(e) => r == Err(Callback(e))
  }

  /** The walk has delivered all entries of the trie to the visitor. */
  ghost predicate Walked<S, E>(
    H: Keccak, root: Hash, content: Store, used: set<Hash>, es: seq<Entry>,
    visit: (S, nat, Bytes) -> Result<S, E>, init: S, state: S)
  {
    && root in content
    && FrameEntries(content, Frame(content[root], [])) == Some(es)
    && used == {root} + FrameRefs(H, content, Frame(content[root], []))
    && Keyed(es) && FoldVisits(visit, init, VisitsOf(es)) == Ok(state)
  }

  lemma WalkedIsComplete<S, E>(
      H: Keccak, root: Hash, nodes: seq<Bytes>, content: Store, used: set<Hash>, es: seq<Entry>,
      visit: (S, nat, Bytes) -> Result<S, E>, init: S, state: S)
    requires root != EmptyRoot(H) && StoreHolds(H, content, nodes)
    requires Walked(H, root, content, used, es, visit, init, state)
    ensures CompleteReceipts(H, root, nodes).Some? ==>
              0 < |es| && Greatest(|es| - 1, es) && used == content.Keys
              && (forall m: nat :: Greatest(m, es) ==> m == |es| - 1)
              && Concludes(CompleteReceipts(H, root, nodes), visit, init, Ok(Completed(|es|, state)))
  {
    var complete := CompleteReceipts(H, root, nodes);
    if complete.Some? {
      CompleteWalk(H, root, nodes, content, complete.value);
      GreatestReceipt(complete.value, |es| - 1);
    }
  }

  lemma CompleteIsExcluded<S, E>(
      H: Keccak, root: Hash, nodes: seq<Bytes>, content: Store, used: set<Hash>, es: seq<Entry>,
      visit: (S, nat, Bytes) -> Result<S, E>, init: S, state: S)
    requires root != EmptyRoot(H) && StoreHolds(H, content, nodes) && DistinctHashes(H, nodes)
    requires Walked(H, root, content, used, es, visit, init, state)
    requires 0 < |es| < U64_LIMIT && Greatest(|es| - 1, es) && used == content.Keys
    ensures CompleteReceipts(H, root, nodes).Some?
    ensures var key := ReceiptKey(|es|);
            var below := PathNodes(content, content[root], NibblesOf(key));
            below.Ok? && VerifyRaw(H, root, key, [content[root]] + below.value) == Ok(Absent)
  {
    var t, values := WalkCommits(H, root, nodes, content);
    CommitsUnique(H, root, nodes, t, values);
    NextIsExcluded(H, root, nodes, content, t, values);
  }

  /** The count, the density and the use of the witness are checked before the next index. */
  method CheckTotals<E>(store: WitnessStore, indices: Indices) returns (failed: Option<WalkError<E>>)
    ensures failed.None? <==>
            indices.count != 0 && indices.max == Some(indices.count - 1) && store.UsedKeys() == store.Content().Keys
    ensures failed.Some? ==> failed.value.Expected()
  {
    if indices.count == 0 {
      return Some(NonCanonicalEmptyTrie);
    }
    if indices.max != Some(indices.count - 1) {
      return Some(NonDenseIndices);
    }
    var allUsed := store.AllUsed();
    failed := if allUsed then None else Some(UnusedWitnessNode);
  }

  lemma TrackedTotals(indices: Indices, es: seq<Entry>)
    requires indices.Tracks(es)
    ensures Keyed(es) && indices.count == |es| < U64_LIMIT
    ensures es != [] ==> indices.max.Some? && Greatest(indices.max.value, es)
  {
  }

  /** What the totals decide: unless they are right there is no complete list, and if they are, the
      next index is provably absent. */
  lemma TotalsDecide<S, E>(
      H: Keccak, root: Hash, nodes: seq<Bytes>, content: Store, used: set<Hash>, es: seq<Entry>,
      visit: (S, nat, Bytes) -> Result<S, E>, init: S, state: S, count: nat, max: Option<nat>)
    requires root != EmptyRoot(H) && StoreHolds(H, content, nodes) && DistinctHashes(H, nodes)
    requires Walked(H, root, content, used, es, visit, init, state)
    requires Keyed(es) && count == |es| < U64_LIMIT
    requires es != [] ==> max.Some? && Greatest(max.value, es)
    ensures root in content
    ensures if count != 0 && max == Some(count - 1) && used == content.Keys then
              var below := PathNodes(content, content[root], NibblesOf(ReceiptKey(count)));
              && Concludes(CompleteReceipts(H, root, nodes), visit, init, Ok(Completed(count, state)))
              && below.Ok?
              && VerifyRaw(H, root, ReceiptKey(count), [content[root]] + below.value) == Ok(Absent)
            else CompleteReceipts(H, root, nodes).None?
  {
    hide Walked;
    hide Concludes;
    hide CompleteReceipts;
    hide StoreHolds;
    hide PathNodes;
    hide VerifyRaw;
    hide ReceiptKey;
    hide Greatest;
    hide Keyed;
    RootStored(H, root, content, used, es, visit, init, state);
    WalkedIsComplete(H, root, nodes, content, used, es, visit, init, state);
    if count != 0 && max == Some(count - 1) && used == content.Keys {
      CompleteIsExcluded(H, root, nodes, content, used, es, visit, init, state);
    }
  }

  /** The checks after the traversal. */
  method FinishWalk<S, E>(
      H: Keccak, root: Hash, ghost nodes: seq<Bytes>, store: WitnessStore, indices: Indices,
      ghost es: seq<Entry>, ghost visit: (S, nat, Bytes) -> Result<S, E>, ghost init: S, state: S)
    returns (r: Result<Completed<S>, WalkError<E>>)
    requires root != EmptyRoot(H) && StoreHolds(H, store.Content(), nodes) && DistinctHashes(H, nodes)
    requires Walked(H, root, store.Content(), store.UsedKeys(), es, visit, init, state)
    requires indices.Tracks(es)
    modifies store
    ensures Concludes(CompleteReceipts(H, root, nodes), visit, init, r)
    ensures r.Err? ==> r.error.Expected()
  {
    hide *;
    TrackedTotals(indices, es);
    TotalsDecide(H, root, nodes, store.Content(), store.UsedKeys(), es, visit, init, state, indices.count, indices.max);
    var failed := CheckTotals<E>(store, indices);
    if failed.Some? {
      IncompleteConcludes(H, root, nodes, visit, init, failed.value);
      return Err(failed.value);
    }
    r := ExcludeNext(H, store, root, indices.count, state);
  }

  /** The last check: the next index is looked up and must be absent. */
  method ExcludeNext<S, E>(H: Keccak, store: WitnessStore, root: Hash, count: nat, state: S)
    returns (r: Result<Completed<S>, WalkError<E>>)
    requires root in store.Content() && count < U64_LIMIT
    modifies store
    ensures var content, key := old(store.Content()), ReceiptKey(count);
            var below := PathNodes(content, content[root], NibblesOf(key));
            below.Ok? && VerifyRaw(H, root, key, [content[root]] + below.value) == Ok(Absent) ==>
              r == Ok(Completed(count, state))
  {
    var answer := LookupInStore(H, store, root, ReceiptKey(count));
    r := match answer
         case Ok(Absent) => Ok(Completed(count, state))
         case Ok(Present(_)) => Err(NextIndexPresent)
         case Err(e) => Err(TrieError(e));
  }

  lemma IncompleteConcludes<S, E>(
      H: Keccak, root: Hash, nodes: seq<Bytes>, visit: (S, nat, Bytes) -> Result<S, E>, init: S, error: WalkError<E>)
    requires CompleteReceipts(H, root, nodes).None?
    ensures Concludes(CompleteReceipts(H, root, nodes), visit, init, Err(error))
  {
  }

  lemma RootStored<S, E>(
      H: Keccak, root: Hash, content: Store, used: set<Hash>, es: seq<Entry>,
      visit: (S, nat, Bytes) -> Result<S, E>, init: S, state: S)
    requires Walked(H, root, content, used, es, visit, init, state)
    ensures root in content
  {
  }

  /** The empty trie: index zero is looked up, and absent. */
  method VisitEmpty<S, E>(
      H: Keccak, nodes: seq<Bytes>, ghost visit: (S, nat, Bytes) -> Result<S, E>, init: S)
    returns (r: Result<Completed<S>, WalkError<E>>)
    ensures Concludes(CompleteReceipts(H, EmptyRoot(H), nodes), visit, init, r)
    ensures r.Err? ==> r.error.Expected()
  {
    var answer := VerifyProof(H, EmptyRoot(H), ReceiptKey(0), nodes);
    r := match answer
         case Ok(Absent) => Ok(Completed(0, init))
         case Ok(Present(_)) => Err(NextIndexPresent)
         case Err(e) => Err(TrieError(e));
  }

  /** Visits every receipt of the trie with this root and succeeds exactly when the corpus is the
      complete node set of a trie holding receipts 0..m-1 (and the visitor accepts them all). The
      checks for key order and for the next index never fail. */
  method VisitAllReceipts<S, E>(
      H: Keccak, root: Hash, nodes: seq<Bytes>, visit: (S, nat, Bytes) -> Result<S, E>, init: S)
    returns (r: Result<Completed<S>, WalkError<E>>)
    ensures Concludes(CompleteReceipts(H, root, nodes), visit, init, r)
    ensures r.Err? ==> r.error.Expected()
  {
    if root == EmptyRoot(H) {
      r := VisitEmpty(H, nodes, visit, init);
      return;
    }
    var created := NewStore<E>(H, nodes);
    if created.Err? {
      assert CompleteReceipts(H, root, nodes).None?;
      return Err(created.error);
    }
    r := VisitStored(H, root, nodes, created.value, visit, init);
  }

  /** The traversal over a store. */
  method VisitStored<S, E>(
      H: Keccak, root: Hash, ghost nodes: seq<Bytes>, store: WitnessStore,
      visit: (S, nat, Bytes) -> Result<S, E>, init: S)
    returns (r: Result<Completed<S>, WalkError<E>>)
    requires root != EmptyRoot(H) && StoreHolds(H, store.Content(), nodes) && DistinctHashes(H, nodes)
    requires store.UsedKeys() == {}
    modifies store
    ensures Concludes(CompleteReceipts(H, root, nodes), visit, init, r)
    ensures r.Err? ==> r.error.Expected()
  {
    hide CompleteReceipts;
    hide StoreHolds;
    hide Outcome;
    hide FrameEntries;
    hide FrameRefs;
    hide Walked;
    hide Concludes;
    ghost var content := store.Content();
    StoreIsConsistent(H, content, nodes);
    var found := store.Hashed(root, true);
    if found.Err? {
      MissingRoot(H, root, nodes, content, visit, init, TrieError(found.error));
      return Err(TrieError(found.error));
    }
    var indices := new Indices();
    var walked := Walk(H, store, found.value, visit, init, indices);
    if walked.Err? {
      FailedWalk(H, root, nodes, content, visit, init, walked.error);
      return Err(walked.error);
    }
    ghost var es := FrameEntries(content, Frame(found.value, [])).value;
    SucceededWalk(H, root, content, indices, store.UsedKeys(), es, visit, init, walked.value);
    r := FinishWalk(H, root, nodes, store, indices, es, visit, init, walked.value);
  }

  lemma StoreIsConsistent(H: Keccak, content: Store, nodes: seq<Bytes>)
    requires StoreHolds(H, content, nodes)
    ensures Consistent(H, content)
  {
  }

  lemma MissingRoot<S, E>(
      H: Keccak, root: Hash, nodes: seq<Bytes>, content: Store,
      visit: (S, nat, Bytes) -> Result<S, E>, init: S, error: WalkError<E>)
    requires root != EmptyRoot(H) && StoreHolds(H, content, nodes) && root !in content
    ensures Concludes(CompleteReceipts(H, root, nodes), visit, init, Err(error))
  {
    var complete := CompleteReceipts(H, root, nodes);
    if complete.Some? {
      CompleteWalk(H, root, nodes, content, complete.value);
    }
  }

  lemma FailedWalk<S, E>(
      H: Keccak, root: Hash, nodes: seq<Bytes>, content: Store,
      visit: (S, nat, Bytes) -> Result<S, E>, init: S, error: WalkError<E>)
    requires root != EmptyRoot(H) && StoreHolds(H, content, nodes) && root in content
    requires Outcome(FrameEntries(content, Frame(content[root], [])), visit, init, Err(error))
    ensures Concludes(CompleteReceipts(H, root, nodes), visit, init, Err(error))
  {
    var complete := CompleteReceipts(H, root, nodes);
    if complete.Some? {
      CompleteWalk(H, root, nodes, content, complete.value);
    }
  }

  lemma SucceededWalk<S, E>(
      H: Keccak, root: Hash, content: Store, indices: Indices, used: set<Hash>, es: seq<Entry>,
      visit: (S, nat, Bytes) -> Result<S, E>, init: S, state: S)
    requires root in content && FrameEntries(content, Frame(content[root], [])) == Some(es)
    requires used == {root} + FrameRefs(H, content, Frame(content[root], []))
    requires indices.Tracks(es)
    requires Outcome(Some(es), visit, init, Ok(state))
    ensures Walked(H, root, content, used, es, visit, init, state)
  {
  }

  lemma CompleteWalk(H: Keccak, root: Hash, nodes: seq<Bytes>, content: Store, values: seq<Bytes>)
    requires root != EmptyRoot(H) && StoreHolds(H, content, nodes)
    requires CompleteReceipts(H, root, nodes) == Some(values)
    ensures DistinctHashes(H, nodes) && root in content && 0 < |values| < U64_LIMIT
    ensures FrameEntries(content, Frame(content[root], [])) == Some(ReceiptEntries(values))
    ensures {root} + FrameRefs(H, content, Frame(content[root], [])) == content.Keys
    ensures Keyed(ReceiptEntries(values)) && VisitsOf(ReceiptEntries(values)) == ReceiptVisits(values)
    ensures forall m: nat :: Greatest(m, ReceiptEntries(values)) ==> m == |values| - 1
  {
    var t :| Commits(H, root, nodes, t, values);
    CommittedWalk(H, root, nodes, content, t, values);
    ReceiptEntriesKeyed(values);
    forall m: nat | Greatest(m, ReceiptEntries(values)) ensures m == |values| - 1 {
      GreatestReceipt(values, m);
    }
  }
}
