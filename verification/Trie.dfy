/** The abstract receipts trie, its node encoding and its content.

    A `Trie` is a fully resolved Merkle Patricia trie: what the TypeScript builder makes, and what
    the Rust walker sees when every hash reference is followed. `EncodeNode` is the one encoding of
    a trie as a root node (Appendix D of the Ethereum Yellow Paper). */
module Tries {
  import opened Prelude
  import opened HexPrefix
  import RlpTree

  datatype Trie =
    | Leaf(path: Nibbles, value: Bytes)
    | Extension(path: Nibbles, child: Trie)
    | Branch(children: seq<Slot>, value: Bytes)

  datatype Slot = Vacant | Occupied(node: Trie)

  datatype Entry = Entry(key: Nibbles, value: Bytes)

  /** The shapes the walker accepts: sixteen slots, not all of them vacant unless the branch holds a
      value, and extensions that advance. */
  ghost predicate WellFormed(t: Trie)
    decreases t
  {
    match t
    case Leaf(_, _) => true
    case Extension(path, child) => path != [] && WellFormed(child)
    case Branch(children, value) =>
      && |children| == 16
      && (value == [] ==> exists i :: 0 <= i < 16 && children[i].Occupied?)
      && forall i :: 0 <= i < |children| && children[i].Occupied? ==> WellFormed(children[i].node)
  }

  // ----- encoding -----

  function NodeStructure(H: Keccak, t: Trie): RlpTree.Value
    decreases t, 0
  {
    match t
    case Leaf(path, value) =>
      RlpTree.List([RlpTree.Str(Compact(path, true)), RlpTree.Str(value)])
    case Extension(path, child) =>
      RlpTree.List([RlpTree.Str(Compact(path, false)), NodeReference(H, child)])
    case Branch(children, value) =>
      RlpTree.List(SlotStructures(H, children) + [RlpTree.Str(value)])
  }

  /** Nodes of 32 bytes and more are referenced by hash, shorter ones inline. */
  function NodeReference(H: Keccak, t: Trie): RlpTree.Value
    decreases t, 1
  {
    var structure := NodeStructure(H, t);
    var encoded := RlpTree.Encode(structure);
    if |encoded| >= 32 then RlpTree.Str(H(encoded)) else structure
  }

  function SlotStructures(H: Keccak, slots: seq<Slot>): (vs: seq<RlpTree.Value>)
    ensures |vs| == |slots|
    decreases slots, 0
  {
    if slots == [] then []
    else [SlotStructure(H, slots[0])] + SlotStructures(H, slots[1..])
  }

  function SlotStructure(H: Keccak, slot: Slot): RlpTree.Value
    decreases slot, 0
  {
    match slot
    case Vacant => RlpTree.Str([])
    case Occupied(node) => NodeReference(H, node)
  }

  function EncodeNode(H: Keccak, t: Trie): Bytes {
    RlpTree.Encode(NodeStructure(H, t))
  }

  function RootHash(H: Keccak, t: Trie): Hash {
    H(EncodeNode(H, t))
  }

  /** Encodings of all proper descendants that are referenced by hash. */
  function HashedBelow(H: Keccak, t: Trie): set<Bytes>
    decreases t, 0
  {
    match t
    case Leaf(_, _) => {}
    case Extension(_, child) => HashedNodes(H, child)
    case Branch(children, _) => HashedInSlots(H, children)
  }

  function HashedInSlots(H: Keccak, slots: seq<Slot>): set<Bytes>
    decreases slots, 0
  {
    if slots == [] then {}
    else
      HashedInSlot(H, slots[0]) + HashedInSlots(H, slots[1..])
  }

  function HashedInSlot(H: Keccak, slot: Slot): set<Bytes>
    decreases slot, 0
  {
    match slot
    case Vacant => {}
    case Occupied(node) => HashedNodes(H, node)
  }

  /** The same, the node itself included. */
  function HashedNodes(H: Keccak, t: Trie): set<Bytes>
    decreases t, 1
  {
    (if |EncodeNode(H, t)| >= 32 then {EncodeNode(H, t)} else {}) + HashedBelow(H, t)
  }

  /** The complete corpus of a root: the root node and every hashed descendant. */
  function Corpus(H: Keccak, t: Trie): set<Bytes> {
    {EncodeNode(H, t)} + HashedBelow(H, t)
  }

  /** Every node encoding fits the 64-bit length arithmetic of the reader. */
  ghost predicate Addressable(H: Keccak, t: Trie)
    decreases t, 1
  {
    |EncodeNode(H, t)| < U64_LIMIT && AddressableBelow(H, t)
  }

  ghost predicate AddressableBelow(H: Keccak, t: Trie)
    decreases t, 0
  {
    match t
    case Leaf(_, _) => true
    case Extension(_, child) => Addressable(H, child)
    case Branch(children, _) =>
      forall i :: 0 <= i < |children| && children[i].Occupied? ==> Addressable(H, children[i].node)
  }

  lemma {:induction false} SlotStructureAt(H: Keccak, slots: seq<Slot>, i: nat)
    requires i < |slots|
    ensures SlotStructures(H, slots)[i] == SlotStructure(H, slots[i])
  {
    if i > 0 {
      SlotStructureAt(H, slots[1..], i - 1);
    }
  }

  lemma {:induction false} HashedInSlotsContains(H: Keccak, slots: seq<Slot>, i: nat)
    requires i < |slots| && slots[i].Occupied?
    ensures HashedNodes(H, slots[i].node) <= HashedInSlots(H, slots)
  {
    if i > 0 {
      HashedInSlotsContains(H, slots[1..], i - 1);
    }
  }

  // ----- content -----

  /** The value stored under a key; an empty branch value means there is none. */
  function Lookup(t: Trie, key: Nibbles): Option<Bytes>
    decreases t
  {
    match t
    case Leaf(path, value) => if key == path then Some(value) else None
    case Extension(path, child) => if path <= key then Lookup(child, key[|path|..]) else None
    case Branch(children, value) =>
      if key == [] then if value == [] then None else Some(value)
      else if key[0] < |children| && children[key[0]].Occupied? then
        Lookup(children[key[0]].node, key[1..])
      else None
  }

  /** All stored pairs, with keys under `prefix`, in traversal order. */
  function Entries(t: Trie, prefix: Nibbles): seq<Entry>
    decreases t, 0
  {
    match t
    case Leaf(path, value) => [Entry(prefix + path, value)]
    case Extension(path, child) => Entries(child, prefix + path)
    case Branch(children, value) => OwnEntry(prefix, value) + SlotEntries(children, prefix, 0)
  }

  function OwnEntry(prefix: Nibbles, value: Bytes): seq<Entry> {
    if value == [] then [] else [Entry(prefix, value)]
  }

  /** The entries below slots numbered from `base`. */
  function SlotEntries(slots: seq<Slot>, prefix: Nibbles, base: nat): seq<Entry>
    decreases slots, 0
  {
    if slots == [] || base >= 16 then []
    else
      EntriesOfSlot(slots[0], prefix + [base]) + SlotEntries(slots[1..], prefix, base + 1)
  }

  function EntriesOfSlot(slot: Slot, prefix: Nibbles): seq<Entry>
    decreases slot, 0
  {
    match slot
    case Vacant => []
    case Occupied(node) => Entries(node, prefix)
  }

  /** The length of the longest stored key. */
  function Span(t: Trie): nat
    decreases t, 0
  {
    match t
    case Leaf(path, _) => |path|
    case Extension(path, child) => |path| + Span(child)
    case Branch(children, _) => SlotSpan(children)
  }

  function SlotSpan(slots: seq<Slot>): nat
    decreases slots, 0
  {
    if slots == [] then 0
    else
      var own := SpanOfSlot(slots[0]);
      var rest := SlotSpan(slots[1..]);
      if own > rest then own else rest
  }

  function SpanOfSlot(slot: Slot): nat
    decreases slot, 0
  {
    match slot
    case Vacant => 0
    case Occupied(node) => 1 + Span(node)
  }

  lemma {:induction false} SlotSpanBound(slots: seq<Slot>, i: nat)
    requires i < |slots| && slots[i].Occupied?
    ensures 1 + Span(slots[i].node) <= SlotSpan(slots)
  {
    if i > 0 {
      SlotSpanBound(slots[1..], i - 1);
    }
  }

  /** Enumeration and lookup describe the same content. */
  lemma {:induction false} EntriesAreLookups(t: Trie, prefix: Nibbles, key: Nibbles, value: Bytes)
    requires WellFormed(t)
    ensures Entry(prefix + key, value) in Entries(t, prefix) <==> Lookup(t, key) == Some(value)
    decreases t, 1
  {
    match t
    case Leaf(path, v) =>
      assert (prefix + key)[|prefix|..] == key && (prefix + path)[|prefix|..] == path;
    case Extension(path, child) =>
      if path <= key {
        var rest := key[|path|..];
        assert key == path + rest;
        assert prefix + key == prefix + path + rest;
        EntriesAreLookups(child, prefix + path, rest, value);
      } else if Entry(prefix + key, value) in Entries(child, prefix + path) {
        EntriesExtend(child, prefix + path, Entry(prefix + key, value));
        assert (prefix + key)[|prefix|..] == key && (prefix + path)[|prefix|..] == path;
        PrefixOfSuffix(prefix, path, key);
      }
    case Branch(children, v) =>
      if key == [] {
        assert prefix + key == prefix;
        if Entry(prefix, value) in SlotEntries(children, prefix, 0) {
          SlotEntriesExtend(children, prefix, 0, Entry(prefix, value));
        }
      } else {
        assert |prefix + key| > |prefix|;
        SlotEntriesAreLookups(children, prefix, 0, key, value);
      }
  }

  lemma PrefixOfSuffix(prefix: Nibbles, path: Nibbles, key: Nibbles)
    requires prefix + path <= prefix + key
    ensures path <= key
  {
    forall i | 0 <= i < |path| ensures path[i] == key[i] {
      assert path[i] == (prefix + path)[|prefix| + i] == (prefix + key)[|prefix| + i];
    }
  }

  lemma {:induction false} SlotEntriesAreLookups(
      slots: seq<Slot>, prefix: Nibbles, base: nat, key: Nibbles, value: Bytes)
    requires base + |slots| == 16 && key != []
    requires forall i :: 0 <= i < |slots| && slots[i].Occupied? ==> WellFormed(slots[i].node)
    ensures Entry(prefix + key, value) in SlotEntries(slots, prefix, base) <==>
            base <= key[0] && slots[key[0] - base].Occupied?
            && Lookup(slots[key[0] - base].node, key[1..]) == Some(value)
    decreases slots, 0
  {
    if slots != [] {
      var e := Entry(prefix + key, value);
      SlotEntriesAreLookups(slots[1..], prefix, base + 1, key, value);
      match slots[0]
      case Vacant =>
      case Occupied(node) =>
        var below := prefix + [base];
        assert below[|prefix|] == base && e.key[|prefix|] == key[0];
        if key[0] == base {
          assert prefix + key == below + key[1..];
          assert slots decreases to slots[0];
          EntriesAreLookups(node, below, key[1..], value);
        } else if e in Entries(node, below) {
          EntriesExtend(node, below, e);
        }
    }
  }

  /** Every key enumerated under a prefix extends it. */
  lemma {:induction false} EntriesExtend(t: Trie, prefix: Nibbles, e: Entry)
    requires e in Entries(t, prefix)
    ensures prefix <= e.key
    decreases t, 1
  {
    match t
    case Leaf(path, v) =>
    case Extension(path, child) =>
      EntriesExtend(child, prefix + path, e);
      assert prefix <= prefix + path;
    case Branch(children, v) =>
      if e in SlotEntries(children, prefix, 0) {
        SlotEntriesExtend(children, prefix, 0, e);
      }
  }

  lemma {:induction false} SlotEntriesExtend(slots: seq<Slot>, prefix: Nibbles, base: nat, e: Entry)
    requires e in SlotEntries(slots, prefix, base)
    ensures prefix <= e.key && |e.key| > |prefix| && e.key[|prefix|] >= base
    decreases slots, 0
  {
    if e in SlotEntries(slots[1..], prefix, base + 1) {
      SlotEntriesExtend(slots[1..], prefix, base + 1, e);
    } else {
      match slots[0]
      case Vacant =>
      case Occupied(node) =>
        assert slots decreases to slots[0];
        EntriesExtend(node, prefix + [base], e);
        assert prefix <= prefix + [base] <= e.key;
        assert e.key[|prefix|] == (prefix + [base])[|prefix|];
    }
  }

  // ----- order -----

  ghost predicate Increasing(es: seq<Entry>) {
    forall i, j :: 0 <= i < j < |es| ==> LexLess(es[i].key, es[j].key)
  }

  lemma IncreasingConcat(a: seq<Entry>, b: seq<Entry>)
    requires Increasing(a) && Increasing(b)
    requires forall x, y :: x in a && y in b ==> LexLess(x.key, y.key)
    ensures Increasing(a + b)
  {
    forall i, j | 0 <= i < j < |a + b| ensures LexLess((a + b)[i].key, (a + b)[j].key) {
      if i < |a| <= j {
        assert a[i] in a && b[j - |a|] in b;
      }
    }
  }

  lemma {:induction false} BranchPoint(prefix: Nibbles, x: Nibbles, y: Nibbles)
    requires prefix <= x && prefix <= y && |y| > |prefix|
    requires |x| == |prefix| || x[|prefix|] < y[|prefix|]
    ensures LexLess(x, y)
  {
    if prefix != [] {
      BranchPoint(prefix[1..], x[1..], y[1..]);
    }
  }

  /** A branch's own value precedes its children and children are enumerated in slot order, so
      keys come out strictly increasing. */
  lemma {:induction false} EntriesIncreasing(t: Trie, prefix: Nibbles)
    ensures Increasing(Entries(t, prefix))
    decreases t, 1
  {
    match t
    case Leaf(path, v) =>
    case Extension(path, child) => EntriesIncreasing(child, prefix + path);
    case Branch(children, v) =>
      SlotEntriesIncreasing(children, prefix, 0);
      forall x, y | x in OwnEntry(prefix, v) && y in SlotEntries(children, prefix, 0)
        ensures LexLess(x.key, y.key)
      {
        SlotEntriesExtend(children, prefix, 0, y);
        BranchPoint(prefix, x.key, y.key);
      }
      IncreasingConcat(OwnEntry(prefix, v), SlotEntries(children, prefix, 0));
  }

  lemma {:induction false} SlotEntriesIncreasing(slots: seq<Slot>, prefix: Nibbles, base: nat)
    ensures Increasing(SlotEntries(slots, prefix, base))
    decreases slots, 0
  {
    if slots != [] && base < 16 {
      var own, rest := EntriesOfSlot(slots[0], prefix + [base]), SlotEntries(slots[1..], prefix, base + 1);
      SlotEntriesIncreasing(slots[1..], prefix, base + 1);
      SlotIncreasing(slots[0], prefix + [base]);
      forall x, y | x in own && y in rest ensures LexLess(x.key, y.key) {
        SlotOrder(slots[0], slots[1..], prefix, base, x, y);
      }
      IncreasingConcat(own, rest);
    }
  }

  lemma {:induction false} SlotIncreasing(slot: Slot, prefix: Nibbles)
    ensures Increasing(EntriesOfSlot(slot, prefix))
    decreases slot, 0
  {
    match slot
    case Vacant =>
    case Occupied(node) => EntriesIncreasing(node, prefix);
  }

  lemma SlotOrder(slot: Slot, later: seq<Slot>, prefix: Nibbles, base: nibble, x: Entry, y: Entry)
    requires x in EntriesOfSlot(slot, prefix + [base])
    requires y in SlotEntries(later, prefix, base + 1)
    ensures LexLess(x.key, y.key)
  {
    EntriesExtend(slot.node, prefix + [base], x);
    SlotEntriesExtend(later, prefix, base + 1, y);
    assert prefix <= prefix + [base];
    assert x.key[|prefix|] == (prefix + [base])[|prefix|];
    BranchPoint(prefix, x.key, y.key);
  }

  /** Strictly increasing enumerations with the same content are equal. */
  lemma {:induction false} IncreasingUnique(a: seq<Entry>, b: seq<Entry>)
    requires Increasing(a) && Increasing(b)
    requires forall e :: e in a <==> e in b
    ensures a == b
  {
    if a != [] || b != [] {
      assert a != [] ==> a[0] in b;
      assert b != [] ==> b[0] in a;
      LeastFirst(a, b);
      LeastFirst(b, a);
      if a[0].key != b[0].key {
        LexTransitive(a[0].key, b[0].key, a[0].key);
      }
      SameHead(a, b);
      TailContent(a, b);
      TailContent(b, a);
      IncreasingUnique(a[1..], b[1..]);
      assert a == [a[0]] + a[1..] && b == [b[0]] + b[1..];
    }
  }

  lemma LeastFirst(a: seq<Entry>, b: seq<Entry>)
    requires Increasing(a) && a != [] && b != []
    requires b[0] in a
    ensures a[0].key == b[0].key ==> a[0] == b[0]
    ensures a[0].key != b[0].key ==> LexLess(a[0].key, b[0].key)
  {
    var i :| 0 <= i < |a| && a[i] == b[0];
    if i > 0 {
      assert LexLess(a[0].key, a[i].key);
      LexIrreflexive(a[0].key);
    }
  }

  lemma SameHead(a: seq<Entry>, b: seq<Entry>)
    requires a != [] && b != []
    requires a[0].key == b[0].key ==> a[0] == b[0]
    requires a[0].key != b[0].key ==> LexLess(a[0].key, a[0].key)
    ensures a[0] == b[0]
  {
    LexIrreflexive(a[0].key);
  }

  lemma TailContent(a: seq<Entry>, b: seq<Entry>)
    requires Increasing(a) && a != [] && b != [] && a[0] == b[0]
    requires forall e :: e in a ==> e in b
    ensures forall e :: e in a[1..] ==> e in b[1..]
  {
    forall e | e in a[1..] ensures e in b[1..] {
      var i :| 0 <= i < |a[1..]| && a[1..][i] == e;
      assert a[i + 1] == e && LexLess(a[0].key, e.key);
      LexIrreflexive(e.key);
      assert e != a[0];
      assert e in b;
      assert b == [b[0]] + b[1..];
    }
  }
}
