/** Resolving a corpus of encoded nodes into the trie it commits to.

    `Unfold` follows every reference of a node, at every path, within a budget of `cap` key nibbles.
    It is the meaning of the walker's traversal, and it is exactly the inverse of `EncodeNode`. */
module Unfolding {
  import opened Prelude
  import opened HexPrefix
  import opened Tries
  import opened NodeCodec

  type Store = map<Hash, Bytes>

  ghost predicate Consistent(H: Keccak, store: Store) {
    forall h :: h in store ==> H(store[h]) == h
  }

  /** The node bytes a child refers to. A hashed child must not be short. */
  function Resolve(store: Store, child: Child): Result<Bytes, Error> {
    match child
    case NoChild => Err(InvalidChildReference)
    case EmbeddedChild(raw) => Ok(raw)
    case HashChild(hash) =>
      if hash !in store then Err(IncompleteProof)
      else if |store[hash]| < 32 then Err(NonCanonicalChildReference)
      else Ok(store[hash])
  }

  function Unfold(store: Store, raw: Bytes, cap: nat): Option<Trie>
    decreases cap, 18
  {
    match ReadNode(raw)
    case Err(_) => None
    case Ok(node) => UnfoldNode(store, node, cap)
  }

  function UnfoldNode(store: Store, node: Node, cap: nat): Option<Trie>
    requires node.BranchNode? ==> |node.children| == 16
    requires node.LeafNode? ==> node.path.Valid()
    requires node.ExtensionNode? ==> node.path.Valid() && node.path.len > 0
    decreases cap, 17
  {
    match node
    case LeafNode(path, value) =>
      if path.len > cap then None else Some(Leaf(path.Nibbles(), value))
    case ExtensionNode(path, child) =>
      if path.len > cap then None
      else
        var below :- UnfoldChild(store, child, cap - path.len);
        Some(Extension(path.Nibbles(), below))
    case BranchNode(children, value) =>
      if value == [] && NoChildren(children) then None
      else
        var slots :- UnfoldSlots(store, children, cap);
        Some(Branch(slots, value))
  }

  function UnfoldChild(store: Store, child: Child, cap: nat): Option<Trie>
    decreases cap, 19
  {
    match Resolve(store, child)
    case Err(_) => None
    case Ok(next) => Unfold(store, next, cap)
  }

  function UnfoldSlots(store: Store, children: seq<Child>, cap: nat): (r: Option<seq<Slot>>)
    requires |children| <= 16
    ensures r.Some? ==> |r.value| == |children|
    decreases cap, |children|
  {
    if children == [] then Some([])
    else
      var rest :- UnfoldSlots(store, children[1..], cap);
      if children[0].NoChild? then Some([Vacant] + rest)
      else if cap == 0 then None
      else
        var below :- UnfoldChild(store, children[0], cap - 1);
        Some([Occupied(below)] + rest)
  }

  predicate NoChildren(children: seq<Child>) {
    forall i :: 0 <= i < |children| ==> children[i].NoChild?
  }

  ghost predicate Stored(H: Keccak, store: Store, nodes: set<Bytes>) {
    forall b :: b in nodes ==> H(b) in store && store[H(b)] == b
  }

  /** A trie that a store resolves completely, with keys of at most `cap` nibbles. */
  ghost predicate Resolved(H: Keccak, store: Store, t: Trie, cap: nat) {
    && WellFormed(t)
    && Addressable(H, t)
    && Span(t) <= cap
    && Stored(H, store, HashedBelow(H, t))
  }

  ghost predicate ResolvedSlot(H: Keccak, store: Store, slot: Slot, cap: nat) {
    slot.Occupied? ==>
      && cap > 0
      && Resolved(H, store, slot.node, cap - 1)
      && Stored(H, store, HashedNodes(H, slot.node))
  }

  // ----- soundness -----

  /** Whatever unfolds is the encoding of the trie it unfolds to. */
  lemma {:induction false} UnfoldSound(H: Keccak, store: Store, raw: Bytes, cap: nat)
    requires Consistent(H, store)
    requires Unfold(store, raw, cap).Some?
    ensures var t := Unfold(store, raw, cap).value;
            raw == EncodeNode(H, t) && Resolved(H, store, t, cap)
    decreases cap, 18
  {
    ReadNodeSound(raw);
    var node := ReadNode(raw).value;
    UnfoldNodeSound(H, store, node, cap);
    ReadDeterminesEncoding(H, raw, UnfoldNode(store, node, cap).value);
  }

  /** A node that unfolds is the view of the trie it unfolds to. */
  lemma {:induction false} UnfoldNodeSound(H: Keccak, store: Store, node: Node, cap: nat)
    requires Consistent(H, store) && ValidNode(node)
    requires node.LeafNode? || node.ExtensionNode? ==> node.path.Valid()
    requires node.ExtensionNode? ==> node.path.len > 0
    requires UnfoldNode(store, node, cap).Some?
    ensures var t := UnfoldNode(store, node, cap).value;
            && WellFormed(t) && AddressableBelow(H, t) && Span(t) <= cap
            && Stored(H, store, HashedBelow(H, t))
            && View(H, t) == node
    decreases cap, 17
  {
    match node
    case LeafNode(path, value) => PathOfNibbles(path);
    case ExtensionNode(path, child) =>
      UnfoldChildSound(H, store, child, cap - path.len);
      ExtensionSound(H, store, path, child, UnfoldChild(store, child, cap - path.len).value, cap);
    case BranchNode(children, value) =>
      UnfoldSlotsSound(H, store, children, cap);
      BranchSound(H, store, children, UnfoldSlots(store, children, cap).value, cap, value);
  }

  lemma ExtensionSound(H: Keccak, store: Store, path: Path, child: Child, below: Trie, cap: nat)
    requires ReadCompact(path.bytes) == Some(path) && !path.leaf && path.len <= cap
    requires ChildOf(H, below) == child && Resolved(H, store, below, cap - path.len)
    requires Stored(H, store, HashedNodes(H, below))
    ensures var t := Extension(path.Nibbles(), below);
            && WellFormed(t) && AddressableBelow(H, t) && Span(t) <= cap
            && Stored(H, store, HashedBelow(H, t))
            && View(H, t) == ExtensionNode(path, child)
  {
    PathOfNibbles(path);
  }

  lemma {:induction false} UnfoldChildSound(H: Keccak, store: Store, child: Child, cap: nat)
    requires Consistent(H, store) && ValidChild(child)
    requires UnfoldChild(store, child, cap).Some?
    ensures var t := UnfoldChild(store, child, cap).value;
            && Resolved(H, store, t, cap)
            && Stored(H, store, HashedNodes(H, t))
            && ChildOf(H, t) == child
    decreases cap, 19
  {
    UnfoldSound(H, store, Resolve(store, child).value, cap);
  }

  lemma {:induction false} UnfoldSlotsSound(H: Keccak, store: Store, children: seq<Child>, cap: nat)
    requires Consistent(H, store) && |children| <= 16
    requires forall i :: 0 <= i < |children| ==> ValidChild(children[i])
    requires UnfoldSlots(store, children, cap).Some?
    ensures var slots := UnfoldSlots(store, children, cap).value;
            forall i :: 0 <= i < |children| ==>
              ResolvedSlot(H, store, slots[i], cap) && ChildOfSlot(H, slots[i]) == children[i]
    decreases cap, |children|
  {
    if children != [] {
      UnfoldSlotsSound(H, store, children[1..], cap);
      if !children[0].NoChild? {
        UnfoldChildSound(H, store, children[0], cap - 1);
      }
    }
  }

  lemma {:induction false} SlotsSpan(slots: seq<Slot>, cap: nat)
    ensures SlotSpan(slots) <= cap <==>
            forall i :: 0 <= i < |slots| && slots[i].Occupied? ==> 1 + Span(slots[i].node) <= cap
  {
    if slots != [] {
      SlotsSpan(slots[1..], cap);
      if forall i :: 0 <= i < |slots| && slots[i].Occupied? ==> 1 + Span(slots[i].node) <= cap {
        forall i | 0 <= i < |slots[1..]| && slots[1..][i].Occupied?
          ensures 1 + Span(slots[1..][i].node) <= cap
        {
          assert slots[1..][i] == slots[i + 1];
        }
      }
      assert SpanOfSlot(slots[0]) <= cap <==> (slots[0].Occupied? ==> 1 + Span(slots[0].node) <= cap);
    }
  }

  lemma {:induction false} SlotsStored(H: Keccak, store: Store, slots: seq<Slot>)
    ensures Stored(H, store, HashedInSlots(H, slots)) <==>
            forall i :: 0 <= i < |slots| && slots[i].Occupied? ==>
              Stored(H, store, HashedNodes(H, slots[i].node))
  {
    if slots != [] {
      var rest := slots[1..];
      SlotsStored(H, store, rest);
      StoredUnion(H, store, HashedInSlot(H, slots[0]), HashedInSlots(H, rest));
      assert forall i :: 0 <= i < |rest| ==> rest[i] == slots[i + 1];
      assert Stored(H, store, HashedInSlot(H, slots[0])) <==>
        (slots[0].Occupied? ==> Stored(H, store, HashedNodes(H, slots[0].node)));
      if forall i :: 0 <= i < |rest| && rest[i].Occupied? ==> Stored(H, store, HashedNodes(H, rest[i].node)) {
        assert forall i :: 1 <= i < |slots| ==> slots[i] == rest[i - 1];
      }
    }
  }

  lemma StoredUnion(H: Keccak, store: Store, a: set<Bytes>, b: set<Bytes>)
    ensures Stored(H, store, a + b) <==> Stored(H, store, a) && Stored(H, store, b)
  {
  }

  lemma BranchSound(
      H: Keccak, store: Store, children: seq<Child>, slots: seq<Slot>, cap: nat, value: Bytes)
    requires |children| == |slots| == 16
    requires forall i :: 0 <= i < 16 ==>
               ResolvedSlot(H, store, slots[i], cap) && ChildOfSlot(H, slots[i]) == children[i]
    requires value != [] || !NoChildren(children)
    ensures WellFormed(Branch(slots, value))
    ensures AddressableBelow(H, Branch(slots, value))
    ensures Span(Branch(slots, value)) <= cap
    ensures Stored(H, store, HashedBelow(H, Branch(slots, value)))
    ensures View(H, Branch(slots, value)) == BranchNode(children, value)
  {
    SlotsSpan(slots, cap);
    SlotsStored(H, store, slots);
    if value == [] {
      var i :| 0 <= i < 16 && !children[i].NoChild?;
      assert slots[i].Occupied?;
    }
  }

  // ----- completeness -----

  /** Every trie a store resolves is unfolded from its encoding. */
  lemma {:induction false} UnfoldComplete(H: Keccak, store: Store, t: Trie, cap: nat)
    requires Resolved(H, store, t, cap)
    ensures Unfold(store, EncodeNode(H, t), cap) == Some(t)
    decreases t, 1
  {
    ReadTrie(H, t);
    match t
    case Leaf(path, value) => PathOfRead(path, true);
    case Extension(path, child) => ExtensionUnfolds(H, store, t, cap);
    case Branch(children, value) => BranchUnfolds(H, store, t, cap);
  }

  lemma {:induction false} ExtensionUnfolds(H: Keccak, store: Store, t: Trie, cap: nat)
    requires t.Extension? && Resolved(H, store, t, cap)
    ensures View(H, t).path.Valid() && View(H, t).path.len > 0
    ensures UnfoldNode(store, View(H, t), cap) == Some(t)
    decreases t, 0
  {
    hide ReadNode;
    hide Addressable;
    hide HashedBelow;
    hide HashedNodes;
    hide ReadCompact;
    PathOfRead(t.path, false);
    ExtensionComplete(H, store, t.path, t.child, cap);
    UnfoldChildComplete(H, store, t.child, cap - |t.path|);
  }

  lemma {:induction false} BranchUnfolds(H: Keccak, store: Store, t: Trie, cap: nat)
    requires t.Branch? && Resolved(H, store, t, cap)
    ensures UnfoldNode(store, View(H, t), cap) == Some(t)
    decreases t, 0
  {
    var view := View(H, t).children;
    BranchComplete(H, store, t.children, view, t.value, cap);
    UnfoldSlotsComplete(H, store, t.children, view, cap);
  }

  lemma {:induction false} UnfoldChildComplete(H: Keccak, store: Store, t: Trie, cap: nat)
    requires Resolved(H, store, t, cap) && Stored(H, store, HashedNodes(H, t))
    ensures UnfoldChild(store, ChildOf(H, t), cap) == Some(t)
    decreases t, 2
  {
    UnfoldComplete(H, store, t, cap);
  }

  lemma StoredBelow(H: Keccak, store: Store, t: Trie)
    requires Stored(H, store, HashedNodes(H, t))
    ensures Stored(H, store, HashedBelow(H, t))
  {
    assert HashedBelow(H, t) <= HashedNodes(H, t);
  }

  lemma ExtensionComplete(H: Keccak, store: Store, path: Nibbles, child: Trie, cap: nat)
    requires Resolved(H, store, Extension(path, child), cap)
    ensures |path| <= cap && Resolved(H, store, child, cap - |path|)
    ensures Stored(H, store, HashedNodes(H, child))
  {
    assert AddressableBelow(H, Extension(path, child));
    StoredBelow(H, store, child);
  }

  lemma BranchComplete(
      H: Keccak, store: Store, slots: seq<Slot>, children: seq<Child>, value: Bytes, cap: nat)
    requires Resolved(H, store, Branch(slots, value), cap)
    requires View(H, Branch(slots, value)) == BranchNode(children, value)
    ensures |children| == |slots| == 16
    ensures value != [] || !NoChildren(children)
    ensures forall i :: 0 <= i < |slots| ==>
              ResolvedSlot(H, store, slots[i], cap) && children[i] == ChildOfSlot(H, slots[i])
  {
    assert AddressableBelow(H, Branch(slots, value));
    SlotsSpan(slots, cap);
    SlotsStored(H, store, slots);
    if value == [] {
      var i :| 0 <= i < 16 && slots[i].Occupied?;
      assert !children[i].NoChild?;
    }
    forall i | 0 <= i < 16 ensures ResolvedSlot(H, store, slots[i], cap) {
      if slots[i].Occupied? {
        assert Stored(H, store, HashedNodes(H, slots[i].node));
      }
    }
  }

  lemma {:induction false} UnfoldSlotsComplete(
      H: Keccak, store: Store, slots: seq<Slot>, children: seq<Child>, cap: nat)
    requires |children| == |slots| <= 16
    requires forall i :: 0 <= i < |slots| ==>
               ResolvedSlot(H, store, slots[i], cap) && children[i] == ChildOfSlot(H, slots[i])
    ensures UnfoldSlots(store, children, cap) == Some(slots)
    decreases slots, 0
  {
    if slots != [] {
      UnfoldSlotsComplete(H, store, slots[1..], children[1..], cap);
      assert slots == [slots[0]] + slots[1..];
      match slots[0]
      case Vacant =>
      case Occupied(node) =>
        assert slots decreases to slots[0];
        UnfoldChildComplete(H, store, node, cap - 1);
    }
  }

  /** Unfolding is the inverse of encoding: a string unfolds to a trie exactly when it encodes that
      trie, the store holds its hashed descendants, and its keys fit the budget. */
  lemma UnfoldInvertsEncoding(H: Keccak, store: Store, raw: Bytes, t: Trie, cap: nat)
    requires Consistent(H, store)
    ensures Unfold(store, raw, cap) == Some(t) <==>
            raw == EncodeNode(H, t) && Resolved(H, store, t, cap)
  {
    if Unfold(store, raw, cap) == Some(t) {
      UnfoldSound(H, store, raw, cap);
    }
    if raw == EncodeNode(H, t) && Resolved(H, store, t, cap) {
      UnfoldComplete(H, store, t, cap);
    }
  }

  // ----- binding -----

  /** The content-addressed store of a corpus without collisions. */
  ghost function StoreOf(H: Keccak, nodes: set<Bytes>): (store: Store)
    requires !Collides(H, nodes)
    ensures Consistent(H, store) && Stored(H, store, nodes)
    ensures forall h :: h in store ==> store[h] in nodes
  {
    map b | b in nodes :: H(b) := b
  }

  /** A root hash commits to one trie: two tries with the same root hash are equal, or two different
      nodes of theirs collide. */
  lemma RootBindsTrie(H: Keccak, t: Trie, u: Trie)
    requires WellFormed(t) && Addressable(H, t) && WellFormed(u) && Addressable(H, u)
    requires RootHash(H, t) == RootHash(H, u)
    ensures t == u || Collides(H, Corpus(H, t) + Corpus(H, u))
  {
    var nodes := Corpus(H, t) + Corpus(H, u);
    if !Collides(H, nodes) {
      assert EncodeNode(H, t) in nodes && EncodeNode(H, u) in nodes;
      var store := StoreOf(H, nodes);
      var cap := Span(t) + Span(u);
      UnfoldComplete(H, store, t, cap);
      UnfoldComplete(H, store, u, cap);
    }
  }
}
