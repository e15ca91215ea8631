/** What a stack of pending frames still has to deliver: the specification of the walker's
    depth-first traversal. */
module WalkSpec {
  import opened Prelude
  import opened HexPrefix
  import opened Tries
  import opened NodeCodec
  import opened Unfolding

  /** Canonical RLP of a 64-bit index has at most nine bytes. */
  const KEY_CAPACITY: nat := 18

  /** A node to visit and the key nibbles that lead to it. */
  datatype Frame = Frame(raw: Bytes, prefix: Nibbles)

  // ----- pending entries -----

  function Both(a: Option<seq<Entry>>, b: Option<seq<Entry>>): Option<seq<Entry>> {
    if a.Some? && b.Some? then Some(a.value + b.value) else None
  }

  /** Everything below a frame, or nothing when some part does not resolve. */
  function FrameEntries(store: Store, f: Frame): Option<seq<Entry>> {
    if |f.prefix| > KEY_CAPACITY then None
    else
      var t :- Unfold(store, f.raw, KEY_CAPACITY - |f.prefix|);
      Some(Entries(t, f.prefix))
  }

  /** The top of the stack is its last frame. */
  function PendingEntries(store: Store, stack: seq<Frame>): Option<seq<Entry>> {
    if stack == [] then Some([])
    else Both(FrameEntries(store, stack[|stack| - 1]), PendingEntries(store, stack[..|stack| - 1]))
  }

  function ChildEntries(store: Store, child: Child, prefix: Nibbles): Option<seq<Entry>> {
    match Resolve(store, child)
    case Err(_) => None
    case Ok(next) => FrameEntries(store, Frame(next, prefix))
  }

  function ChildrenEntries(store: Store, children: seq<Child>, prefix: Nibbles, i: nat): Option<seq<Entry>>
    requires |children| == 16 && i <= 16
    decreases 16 - i
  {
    if i == 16 then Some([])
    else
      Both(
        if children[i].NoChild? then Some([]) else ChildEntries(store, children[i], prefix + [i]),
        ChildrenEntries(store, children, prefix, i + 1))
  }

  lemma BothAssociative(a: Option<seq<Entry>>, b: Option<seq<Entry>>, c: Option<seq<Entry>>)
    ensures Both(Both(a, b), c) == Both(a, Both(b, c))
  {
    if a.Some? && b.Some? && c.Some? {
      assert a.value + b.value + c.value == a.value + (b.value + c.value);
    }
  }

  lemma BothNothing(a: Option<seq<Entry>>)
    ensures Both(Some([]), a) == a && Both(a, Some([])) == a
  {
    if a.Some? {
      assert [] + a.value == a.value && a.value + [] == a.value;
    }
  }

  lemma PendingPush(store: Store, stack: seq<Frame>, f: Frame)
    ensures PendingEntries(store, stack + [f]) == Both(FrameEntries(store, f), PendingEntries(store, stack))
  {
    assert (stack + [f])[..|stack|] == stack;
  }

  // ----- referenced hashes -----

  ghost function Hashes(H: Keccak, nodes: set<Bytes>): set<Hash> {
    set b | b in nodes :: H(b)
  }

  lemma HashesUnion(H: Keccak, a: set<Bytes>, b: set<Bytes>)
    ensures Hashes(H, a + b) == Hashes(H, a) + Hashes(H, b)
  {
  }

  /** The hash a reference marks as used. */
  function OwnRef(child: Child): set<Hash> {
    if child.HashChild? then {child.hash} else {}
  }

  ghost function FrameRefs(H: Keccak, store: Store, f: Frame): set<Hash> {
    if |f.prefix| > KEY_CAPACITY then {}
    else
      match Unfold(store, f.raw, KEY_CAPACITY - |f.prefix|)
      case None => {}
      case Some(t) => Hashes(H, HashedBelow(H, t))
  }

  ghost function PendingRefs(H: Keccak, store: Store, stack: seq<Frame>): set<Hash> {
    if stack == [] then {}
    else FrameRefs(H, store, stack[|stack| - 1]) + PendingRefs(H, store, stack[..|stack| - 1])
  }

  ghost function ChildRefs(H: Keccak, store: Store, child: Child, prefix: Nibbles): set<Hash> {
    match Resolve(store, child)
    case Err(_) => {}
    case Ok(next) => OwnRef(child) + FrameRefs(H, store, Frame(next, prefix))
  }

  ghost function ChildrenRefs(
      H: Keccak, store: Store, children: seq<Child>, prefix: Nibbles, i: nat): set<Hash>
    requires |children| == 16 && i <= 16
    decreases 16 - i
  {
    if i == 16 then {}
    else ChildRefs(H, store, children[i], prefix + [i]) + ChildrenRefs(H, store, children, prefix, i + 1)
  }

  lemma PendingRefsPush(H: Keccak, store: Store, stack: seq<Frame>, f: Frame)
    ensures PendingRefs(H, store, stack + [f]) == FrameRefs(H, store, f) + PendingRefs(H, store, stack)
  {
    assert (stack + [f])[..|stack|] == stack;
  }

  // ----- one frame, by the kind of its node -----

  lemma LeafFrame(H: Keccak, store: Store, f: Frame)
    requires |f.prefix| <= KEY_CAPACITY && ReadNode(f.raw).Ok? && ReadNode(f.raw).value.LeafNode?
    ensures var node := ReadNode(f.raw).value;
            && FrameEntries(store, f) ==
               (if |f.prefix| + node.path.len > KEY_CAPACITY then None
                else Some([Entry(f.prefix + node.path.Nibbles(), node.value)]))
            && FrameRefs(H, store, f) == {}
  {
    UnfoldAt(store, f);
  }

  lemma UnfoldAt(store: Store, f: Frame)
    requires |f.prefix| <= KEY_CAPACITY && ReadNode(f.raw).Ok?
    ensures Unfold(store, f.raw, KEY_CAPACITY - |f.prefix|) ==
            UnfoldNode(store, ReadNode(f.raw).value, KEY_CAPACITY - |f.prefix|)
  {
  }

  /** A resolved child and the references it stands for. */
  lemma ChildResolved(H: Keccak, store: Store, child: Child, prefix: Nibbles)
    requires Consistent(H, store) && ValidChild(child) && |prefix| <= KEY_CAPACITY
    ensures var below := UnfoldChild(store, child, KEY_CAPACITY - |prefix|);
            && ChildEntries(store, child, prefix) ==
               (if below.None? then None else Some(Entries(below.value, prefix)))
            && (below.Some? ==> ChildRefs(H, store, child, prefix) == Hashes(H, HashedNodes(H, below.value)))
  {
    hide Unfold;
    hide ReadNode;
    hide Entries;
    var below := UnfoldChild(store, child, KEY_CAPACITY - |prefix|);
    if below.Some? {
      var t := below.value;
      UnfoldChildSound(H, store, child, KEY_CAPACITY - |prefix|);
      HashesUnion(H, if |EncodeNode(H, t)| >= 32 then {EncodeNode(H, t)} else {}, HashedBelow(H, t));
    }
  }

  lemma ExtensionFrame(H: Keccak, store: Store, f: Frame)
    requires Consistent(H, store)
    requires |f.prefix| <= KEY_CAPACITY && ReadNode(f.raw).Ok? && ReadNode(f.raw).value.ExtensionNode?
    ensures var node := ReadNode(f.raw).value;
            if |f.prefix| + node.path.len > KEY_CAPACITY then FrameEntries(store, f) == None
            else
              var prefix := f.prefix + node.path.Nibbles();
              && FrameEntries(store, f) == ChildEntries(store, node.child, prefix)
              && (FrameEntries(store, f).Some? ==>
                    FrameRefs(H, store, f) == ChildRefs(H, store, node.child, prefix))
  {
    hide *;
    var node := ReadNode(f.raw).value;
    ReadNodeSound(f.raw);
    ExtensionUnfolding(H, store, f, node.path, node.child);
    if |f.prefix| + node.path.len <= KEY_CAPACITY {
      ChildResolved(H, store, node.child, f.prefix + node.path.Nibbles());
    }
  }

  /** An extension unfolds its child. */
  lemma ExtensionUnfolding(H: Keccak, store: Store, f: Frame, path: Path, child: Child)
    requires |f.prefix| <= KEY_CAPACITY && ReadNode(f.raw) == Ok(ExtensionNode(path, child))
    ensures if |f.prefix| + path.len > KEY_CAPACITY then FrameEntries(store, f) == None
            else
              var prefix := f.prefix + path.Nibbles();
              var below := UnfoldChild(store, child, KEY_CAPACITY - |prefix|);
              && FrameEntries(store, f) == (if below.None? then None else Some(Entries(below.value, prefix)))
              && (below.Some? ==> FrameRefs(H, store, f) == Hashes(H, HashedNodes(H, below.value)))
  {
    hide ReadNode;
    hide UnfoldNode;
    hide UnfoldChild;
    hide HashedNodes;
    UnfoldAt(store, f);
    UnfoldExtension(store, path, child, KEY_CAPACITY - |f.prefix|);
  }

  lemma UnfoldExtension(store: Store, path: Path, child: Child, cap: nat)
    requires path.Valid() && path.len > 0
    ensures UnfoldNode(store, ExtensionNode(path, child), cap) ==
            if path.len > cap || UnfoldChild(store, child, cap - path.len).None? then None
            else Some(Extension(path.Nibbles(), UnfoldChild(store, child, cap - path.len).value))
  {
  }

  lemma BranchFrame(H: Keccak, store: Store, f: Frame)
    requires Consistent(H, store)
    requires |f.prefix| <= KEY_CAPACITY && ReadNode(f.raw).Ok? && ReadNode(f.raw).value.BranchNode?
    ensures var node := ReadNode(f.raw).value;
            && FrameEntries(store, f) ==
               (if node.value == [] && NoChildren(node.children) then None
                else Both(Some(OwnEntry(f.prefix, node.value)), ChildrenEntries(store, node.children, f.prefix, 0)))
            && (FrameEntries(store, f).Some? ==>
                  FrameRefs(H, store, f) == ChildrenRefs(H, store, node.children, f.prefix, 0))
  {
    var node := ReadNode(f.raw).value;
    ReadNodeSound(f.raw);
    ChildrenOfBranch(H, store, node.children, f.prefix);
    BranchUnfolding(H, store, f, node.children, node.value);
  }

  /** A branch unfolds slot by slot. */
  lemma BranchUnfolding(H: Keccak, store: Store, f: Frame, children: seq<Child>, value: Bytes)
    requires |f.prefix| <= KEY_CAPACITY && ReadNode(f.raw) == Ok(BranchNode(children, value))
    ensures var slots := UnfoldSlots(store, children, KEY_CAPACITY - |f.prefix|);
            if (value == [] && NoChildren(children)) || slots.None? then FrameEntries(store, f) == None
            else
              && FrameEntries(store, f) == Some(OwnEntry(f.prefix, value) + SlotEntries(slots.value, f.prefix, 0))
              && FrameRefs(H, store, f) == Hashes(H, HashedInSlots(H, slots.value))
  {
    UnfoldAt(store, f);
    hide ReadNode;
    hide UnfoldSlots;
    hide SlotEntries;
    hide HashedInSlots;
  }

  lemma ChildrenOfBranch(H: Keccak, store: Store, children: seq<Child>, prefix: Nibbles)
    requires Consistent(H, store) && |children| == 16 && |prefix| <= KEY_CAPACITY
    requires forall j :: 0 <= j < 16 ==> ValidChild(children[j])
    ensures var slots := UnfoldSlots(store, children, KEY_CAPACITY - |prefix|);
            && ChildrenEntries(store, children, prefix, 0) ==
               (if slots.None? then None else Some(SlotEntries(slots.value, prefix, 0)))
            && (slots.Some? ==>
                  ChildrenRefs(H, store, children, prefix, 0) == Hashes(H, HashedInSlots(H, slots.value)))
  {
    assert children[0..] == children;
    ChildrenResolved(H, store, children, prefix, 0);
  }

  lemma {:induction false} ChildrenResolved(
      H: Keccak, store: Store, children: seq<Child>, prefix: Nibbles, i: nat)
    requires Consistent(H, store) && |children| == 16 && i <= 16 && |prefix| <= KEY_CAPACITY
    requires forall j :: 0 <= j < 16 ==> ValidChild(children[j])
    ensures var slots := UnfoldSlots(store, children[i..], KEY_CAPACITY - |prefix|);
            && ChildrenEntries(store, children, prefix, i) ==
               (if slots.None? then None else Some(SlotEntries(slots.value, prefix, i)))
            && (slots.Some? ==>
                  ChildrenRefs(H, store, children, prefix, i) == Hashes(H, HashedInSlots(H, slots.value)))
    decreases 16 - i
  {
    if i < 16 {
      var cap := KEY_CAPACITY - |prefix|;
      ChildrenResolved(H, store, children, prefix, i + 1);
      SlotResolved(H, store, children[i], prefix, i);
      SlotsFrom(store, children, cap, i);
      var slot, rest := SlotOf(store, children[i], cap), UnfoldSlots(store, children[i + 1..], cap);
      if slot.Some? && rest.Some? {
        SlotsCons(H, slot.value, rest.value, prefix, i);
      }
    }
  }

  lemma SlotsFrom(store: Store, children: seq<Child>, cap: nat, i: nat)
    requires |children| == 16 && i < 16
    ensures UnfoldSlots(store, children[i..], cap) ==
            AddSlot(SlotOf(store, children[i], cap), UnfoldSlots(store, children[i + 1..], cap))
  {
    assert children[i..][1..] == children[i + 1..] && children[i..][0] == children[i];
  }

  lemma SlotsCons(H: Keccak, slot: Slot, rest: seq<Slot>, prefix: Nibbles, i: nibble)
    ensures SlotEntries([slot] + rest, prefix, i) ==
            EntriesOfSlot(slot, prefix + [i]) + SlotEntries(rest, prefix, i + 1)
    ensures Hashes(H, HashedInSlots(H, [slot] + rest)) ==
            Hashes(H, HashedInSlot(H, slot)) + Hashes(H, HashedInSlots(H, rest))
  {
    assert ([slot] + rest)[1..] == rest;
    HashesUnion(H, HashedInSlot(H, slot), HashedInSlots(H, rest));
  }

  /** What one child contributes to a branch. */
  function SlotOf(store: Store, child: Child, cap: nat): Option<Slot> {
    if child.NoChild? then Some(Vacant)
    else if cap == 0 then None
    else
      var below :- UnfoldChild(store, child, cap - 1);
      Some(Occupied(below))
  }

  function AddSlot(slot: Option<Slot>, rest: Option<seq<Slot>>): Option<seq<Slot>> {
    if slot.Some? && rest.Some? then Some([slot.value] + rest.value) else None
  }

  lemma SlotResolved(H: Keccak, store: Store, child: Child, prefix: Nibbles, i: nibble)
    requires Consistent(H, store) && ValidChild(child) && |prefix| <= KEY_CAPACITY
    ensures var slot := SlotOf(store, child, KEY_CAPACITY - |prefix|);
            && (if child.NoChild? then Some([]) else ChildEntries(store, child, prefix + [i])) ==
               (if slot.None? then None else Some(EntriesOfSlot(slot.value, prefix + [i])))
            && (slot.Some? ==>
                  ChildRefs(H, store, child, prefix + [i]) == Hashes(H, HashedInSlot(H, slot.value)))
  {
    hide FrameEntries;
    hide FrameRefs;
    hide UnfoldChild;
    hide HashedNodes;
    hide Entries;
    hide Consistent;
    hide ValidChild;
    if !child.NoChild? {
      assert |prefix + [i]| == |prefix| + 1;
      if |prefix| < KEY_CAPACITY {
        ChildResolved(H, store, child, prefix + [i]);
      } else {
        TooDeep(store, child, prefix + [i]);
      }
    }
  }

  lemma TooDeep(store: Store, child: Child, prefix: Nibbles)
    requires |prefix| > KEY_CAPACITY
    ensures ChildEntries(store, child, prefix) == None
  {
  }

  /** When one child does not resolve, the children from any earlier slot on do not either. */
  lemma {:induction false} ChildrenFail(store: Store, children: seq<Child>, prefix: Nibbles, i: nat, j: nat)
    requires |children| == 16 && i <= j <= 16
    requires ChildrenEntries(store, children, prefix, j).None?
    ensures ChildrenEntries(store, children, prefix, i).None?
    decreases j - i
  {
    if i < j {
      ChildrenFail(store, children, prefix, i + 1, j);
    }
  }

  // ----- order of the stack -----

  /** Two paths that part at some nibble, the first to the left. */
  predicate Precedes(p: Nibbles, q: Nibbles) {
    p != [] && q != [] && (p[0] < q[0] || (p[0] == q[0] && Precedes(p[1..], q[1..])))
  }

  lemma {:induction false} PrecedesExtends(p: Nibbles, q: Nibbles, x: Nibbles)
    requires Precedes(p, q)
    ensures Precedes(p + x, q) && LexLess(p, q)
  {
    assert (p + x)[1..] == p[1..] + x;
    if p[0] == q[0] {
      PrecedesExtends(p[1..], q[1..], x);
    }
  }

  lemma {:induction false} SiblingsPrecede(p: Nibbles, i: nibble, j: nibble)
    requires i < j
    ensures Precedes(p + [i], p + [j])
  {
    if p != [] {
      SiblingsPrecede(p[1..], i, j);
      assert (p + [i])[1..] == p[1..] + [i] && (p + [j])[1..] == p[1..] + [j];
    }
  }

  lemma {:induction false} PrefixLess(p: Nibbles, x: Nibbles)
    requires x != []
    ensures LexLess(p, p + x)
  {
    if p != [] {
      PrefixLess(p[1..], x);
      assert (p + x)[1..] == p[1..] + x;
    }
  }

  /** Frames nearer the top lie strictly to the left of the frames below them. */
  ghost predicate Ordered(stack: seq<Frame>) {
    forall i, j :: 0 <= i < j < |stack| ==> Precedes(stack[j].prefix, stack[i].prefix)
  }

  /** A prefix to the left of every frame of the stack. */
  ghost predicate Left(prefix: Nibbles, stack: seq<Frame>) {
    forall i :: 0 <= i < |stack| ==> Precedes(prefix, stack[i].prefix)
  }

  /** A recorded key before everything the stack can still deliver. */
  ghost predicate Before(key: Nibbles, stack: seq<Frame>) {
    forall i :: 0 <= i < |stack| ==> LexLess(key, stack[i].prefix)
  }

  lemma OrderedPush(stack: seq<Frame>, f: Frame)
    requires Ordered(stack) && Left(f.prefix, stack)
    ensures Ordered(stack + [f])
  {
  }

  lemma LeftExtends(prefix: Nibbles, x: Nibbles, stack: seq<Frame>)
    requires Left(prefix, stack)
    ensures Left(prefix + x, stack) && Before(prefix + x, stack)
  {
    forall i | 0 <= i < |stack|
      ensures Precedes(prefix + x, stack[i].prefix) && LexLess(prefix + x, stack[i].prefix)
    {
      PrecedesExtends(prefix, stack[i].prefix, x);
      PrecedesExtends(prefix + x, stack[i].prefix, []);
    }
  }

  lemma {:induction false} LessExtends(a: Nibbles, q: Nibbles, x: Nibbles)
    requires LexLess(a, q)
    ensures LexLess(a, q + x)
  {
    if a != [] && a[0] == q[0] {
      LessExtends(a[1..], q[1..], x);
      assert (q + x)[1..] == q[1..] + x;
    }
  }

  // ----- termination -----

  function Pow17(n: nat): (p: nat)
    ensures p > 0
  {
    if n == 0 then 1 else 17 * Pow17(n - 1)
  }

  /** Bounds the frames that can still come out of one frame: prefixes only grow, up to the
      capacity, and a branch has sixteen children. */
  function FrameWeight(f: Frame): (w: nat)
    ensures w > 0
  {
    Pow17(if |f.prefix| <= KEY_CAPACITY then KEY_CAPACITY + 1 - |f.prefix| else 0)
  }

  function Weight(stack: seq<Frame>): nat {
    if stack == [] then 0 else FrameWeight(stack[|stack| - 1]) + Weight(stack[..|stack| - 1])
  }

  lemma WeightPush(stack: seq<Frame>, f: Frame)
    ensures Weight(stack + [f]) == Weight(stack) + FrameWeight(f)
  {
    assert (stack + [f])[..|stack|] == stack;
  }

  lemma {:induction false} PowDrop(m: nat, n: nat)
    requires m < n
    ensures 17 * Pow17(m) <= Pow17(n)
  {
    if m < n - 1 {
      PowDrop(m, n - 1);
    }
  }

  lemma LongerIsLighter(f: Frame, g: Frame)
    requires |f.prefix| < |g.prefix| <= KEY_CAPACITY
    ensures 17 * FrameWeight(g) <= FrameWeight(f)
  {
    PowDrop(KEY_CAPACITY + 1 - |g.prefix|, KEY_CAPACITY + 1 - |f.prefix|);
  }
}
