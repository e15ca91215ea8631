/** The exhaustive traversal `visit_receipts` and what its success means. */
module Traversal {
  import opened Prelude
  import opened HexPrefix
  import opened Tries
  import opened NodeCodec
  import opened Unfolding
  import opened ReceiptKeys
  import opened WalkSpec
  import opened ReceiptWalk

  // ----- recording one value -----

  /** The entries so far cannot be visited to the end: a bad key, too many, or a failed visit. */
  ghost predicate Stuck<S, E>(
    visit: (S, nat, Bytes) -> Result<S, E>, init: S, es: seq<Entry>, error: WalkError<E>)
  {
    || !Keyed(es)
    || |es| >= U64_LIMIT
    || (error.Callback? && FoldVisits(visit, init, VisitsOf(es)) == Err(error.error))
  }

  /** Records the key and calls the visitor. */
  method RecordVisit<S, E>(
      indices: Indices, prefix: Nibbles, value: Bytes, visit: (S, nat, Bytes) -> Result<S, E>,
      ghost init: S, state: S, ghost done: seq<Entry>)
    returns (r: Result<S, WalkError<E>>)
    requires indices.Tracks(done)
    requires done != [] ==> LexLess(done[|done| - 1].key, prefix)
    requires FoldVisits(visit, init, VisitsOf(done)) == Ok(state)
    modifies indices
    ensures var es := done + [Entry(prefix, value)];
            && (r.Ok? ==> indices.Tracks(es) && FoldVisits(visit, init, VisitsOf(es)) == Ok(r.value))
            && (r.Err? ==> Stuck(visit, init, es, r.error) && r.error.Expected())
  {
    ghost var e := Entry(prefix, value);
    ghost var es := done + [e];
    if PathIndex(prefix).Ok? {
      KeyedAppend(done, e);
      if done != [] {
        KeyOrderOfEntries(done[|done| - 1], e);
      }
    } else {
      assert es[|done|] == e;
    }
    var recorded := indices.Record<E>(prefix);
    if recorded.Err? {
      return Err(recorded.error);
    }
    assert indices.Tracks(es) by {
      GreatestAppend(done, e, old(indices.max), indices.max.value);
    }
    FoldStep(visit, init, VisitsOf(done), VisitOf(e));
    var next := visit(state, recorded.value, value);
    if next.Err? {
      return Err(Callback(next.error));
    }
    r := Ok(next.value);
  }

  lemma KeyedAppend(done: seq<Entry>, e: Entry)
    requires Keyed(done) && PathIndex(e.key).Ok?
    ensures Keyed(done + [e]) && VisitsOf(done + [e]) == VisitsOf(done) + [VisitOf(e)]
  {
  }

  lemma GreatestAppend(done: seq<Entry>, e: Entry, max: Option<nat>, greatest: nat)
    requires Keyed(done) && PathIndex(e.key).Ok?
    requires done == [] ==> max == None
    requires done != [] ==> max.Some? && Greatest(max.value, done)
    requires var index := PathIndex(e.key).value;
             greatest == if max.Some? && max.value > index then max.value else index
    ensures Keyed(done + [e]) && Greatest(greatest, done + [e])
  {
    hide PathIndex;
    var es := done + [e];
    var index := PathIndex(e.key).value;
    if max.Some? && max.value > index {
      var i :| 0 <= i < |done| && PathIndex(done[i].key).value == max.value;
      assert es[i] == done[i];
    } else {
      assert es[|done|] == e;
    }
  }

  // ----- the key path -----

  /** Appends the nibbles of a node path; a key has at most eighteen. */
  method AppendPath<E>(prefix: Nibbles, path: Path) returns (r: Result<Nibbles, WalkError<E>>)
    requires path.Valid() && |prefix| <= KEY_CAPACITY
    ensures r == if |prefix| + path.len > KEY_CAPACITY then Err(BadIndex(UnsupportedIndexWidth))
                 else Ok(prefix + path.Nibbles())
  {
    if path.len > KEY_CAPACITY - |prefix| {
      return Err(BadIndex(UnsupportedIndexWidth));
    }
    var out := prefix;
    for i := 0 to path.len
      invariant out == prefix + path.Nibbles()[..i]
    {
      NibbleAtSuffix(path.bytes, path.offset, i);
      out := out + [NibbleAt(path.bytes, path.offset + i)];
    }
    assert path.Nibbles()[..path.len] == path.Nibbles();
    r := Ok(out);
  }

  // ----- pushing the children of a branch -----

  ghost predicate Shallow(stack: seq<Frame>) {
    forall i :: 0 <= i < |stack| ==> |stack[i].prefix| <= KEY_CAPACITY
  }

  /** The frames pushed for slots `i` and up, on top of the rest of the stack. */
  ghost predicate Siblings(prefix: Nibbles, i: nat, rest: seq<Frame>, stack: seq<Frame>) {
    && Shallow(stack) && Ordered(stack)
    && rest <= stack
    && forall k :: |rest| <= k < |stack| ==> IsChildPath(prefix, i, stack[k].prefix)
  }

  predicate IsChildPath(prefix: Nibbles, i: nat, path: Nibbles) {
    |path| == |prefix| + 1 && prefix <= path && path[|prefix|] >= i
  }

  function Times(k: nat, w: nat): nat {
    if k == 0 then 0 else w + Times(k - 1, w)
  }

  lemma {:induction false} TimesIsProduct(k: nat, w: nat)
    ensures Times(k, w) == k * w
  {
    if k > 0 {
      TimesIsProduct(k - 1, w);
    }
  }

  /** The push loop has dealt with slots `i` and up; `before` are the hashes used when it began. */
  ghost predicate Pushed(
    H: Keccak, content: Store, children: seq<Child>, parent: Frame, rest: seq<Frame>, before: set<Hash>,
    i: nat, stack: seq<Frame>, used: set<Hash>)
    requires |children| == 16 && i <= 16
  {
    && PendingEntries(content, stack) ==
       Both(ChildrenEntries(content, children, parent.prefix, i), PendingEntries(content, rest))
    && used + PendingRefs(H, content, stack) ==
       before + ChildrenRefs(H, content, children, parent.prefix, i) + PendingRefs(H, content, rest)
    && Siblings(parent.prefix, i, rest, stack)
    && Weight(stack) <= Weight(rest) + Times(16 - i, FrameWeight(parent) / 17)
  }

  lemma PushedNothing(
      H: Keccak, content: Store, children: seq<Child>, parent: Frame, rest: seq<Frame>, before: set<Hash>)
    requires |children| == 16 && Shallow(rest) && Ordered(rest)
    ensures Pushed(H, content, children, parent, rest, before, 16, rest, before)
  {
    BothNothing(PendingEntries(content, rest));
  }

  lemma PushedVacant(
      H: Keccak, content: Store, children: seq<Child>, parent: Frame, rest: seq<Frame>, before: set<Hash>,
      i: nat, stack: seq<Frame>, used: set<Hash>)
    requires |children| == 16 && i < 16 && children[i].NoChild?
    requires Pushed(H, content, children, parent, rest, before, i + 1, stack, used)
    ensures Pushed(H, content, children, parent, rest, before, i, stack, used)
  {
    BothNothing(ChildrenEntries(content, children, parent.prefix, i + 1));
    assert ChildRefs(H, content, children[i], parent.prefix + [i]) == {};
  }

  lemma PushedFrame(
      H: Keccak, content: Store, children: seq<Child>, parent: Frame, rest: seq<Frame>, before: set<Hash>,
      i: nat, stack: seq<Frame>, used: set<Hash>, frame: Frame)
    requires |children| == 16 && i < 16 && !children[i].NoChild?
    requires |parent.prefix| < KEY_CAPACITY && Left(parent.prefix, rest)
    requires Resolve(content, children[i]) == Ok(frame.raw) && frame.prefix == parent.prefix + [i]
    requires Pushed(H, content, children, parent, rest, before, i + 1, stack, used)
    ensures Pushed(H, content, children, parent, rest, before, i, stack + [frame], used + OwnRef(children[i]))
  {
    PushEntries(content, children, parent.prefix, i, rest, stack, frame);
    PushRefs(H, content, children, parent.prefix, i, rest, before, stack, used, frame);
    SiblingsPush(parent.prefix, i, rest, stack, frame);
    PushWeight(parent, i, rest, stack, frame);
  }

  lemma PushWeight(parent: Frame, i: nat, rest: seq<Frame>, stack: seq<Frame>, frame: Frame)
    requires i < 16 && |parent.prefix| < KEY_CAPACITY && frame.prefix == parent.prefix + [i]
    requires Weight(stack) <= Weight(rest) + Times(16 - (i + 1), FrameWeight(parent) / 17)
    ensures Weight(stack + [frame]) <= Weight(rest) + Times(16 - i, FrameWeight(parent) / 17)
  {
    WeightPush(stack, frame);
    LongerIsLighter(parent, frame);
  }

  lemma PushEntries(
      content: Store, children: seq<Child>, prefix: Nibbles, i: nat, rest: seq<Frame>, stack: seq<Frame>, frame: Frame)
    requires |children| == 16 && i < 16 && !children[i].NoChild?
    requires Resolve(content, children[i]) == Ok(frame.raw) && frame.prefix == prefix + [i]
    requires PendingEntries(content, stack) ==
             Both(ChildrenEntries(content, children, prefix, i + 1), PendingEntries(content, rest))
    ensures PendingEntries(content, stack + [frame]) ==
            Both(ChildrenEntries(content, children, prefix, i), PendingEntries(content, rest))
  {
    PendingPush(content, stack, frame);
    BothAssociative(FrameEntries(content, frame), ChildrenEntries(content, children, prefix, i + 1),
                    PendingEntries(content, rest));
  }

  lemma PushRefs(
      H: Keccak, content: Store, children: seq<Child>, prefix: Nibbles, i: nat, rest: seq<Frame>,
      before: set<Hash>, stack: seq<Frame>, used: set<Hash>, frame: Frame)
    requires |children| == 16 && i < 16
    requires Resolve(content, children[i]) == Ok(frame.raw) && frame.prefix == prefix + [i]
    requires used + PendingRefs(H, content, stack) ==
             before + ChildrenRefs(H, content, children, prefix, i + 1) + PendingRefs(H, content, rest)
    ensures used + OwnRef(children[i]) + PendingRefs(H, content, stack + [frame]) ==
            before + ChildrenRefs(H, content, children, prefix, i) + PendingRefs(H, content, rest)
  {
    PendingRefsPush(H, content, stack, frame);
    var own, below := OwnRef(children[i]), FrameRefs(H, content, frame);
    assert ChildrenRefs(H, content, children, prefix, i) ==
           own + below + ChildrenRefs(H, content, children, prefix, i + 1);
    assert used + own + (below + PendingRefs(H, content, stack)) ==
           own + below + (used + PendingRefs(H, content, stack));
  }

  lemma SiblingsPush(prefix: Nibbles, i: nat, rest: seq<Frame>, stack: seq<Frame>, frame: Frame)
    requires i < 16 && Siblings(prefix, i + 1, rest, stack) && Left(prefix, rest)
    requires frame.prefix == prefix + [i] && |prefix| < KEY_CAPACITY
    ensures Siblings(prefix, i, rest, stack + [frame])
  {
    forall k | 0 <= k < |stack| ensures Precedes(frame.prefix, stack[k].prefix) {
      if k < |rest| {
        assert stack[k] == rest[k];
        PrecedesExtends(prefix, rest[k].prefix, [i]);
      } else {
        var path := stack[k].prefix;
        assert path == prefix + [path[|prefix|]];
        SiblingsPrecede(prefix, i, path[|prefix|]);
      }
    }
    OrderedPush(stack, frame);
  }

  lemma BeforeSiblings(prefix: Nibbles, rest: seq<Frame>, stack: seq<Frame>)
    requires Siblings(prefix, 0, rest, stack) && Before(prefix, rest)
    ensures Before(prefix, stack)
  {
    forall k | 0 <= k < |stack| ensures LexLess(prefix, stack[k].prefix) {
      if k < |rest| {
        assert stack[k] == rest[k];
      } else {
        var path := stack[k].prefix;
        assert path == prefix + [path[|prefix|]];
        PrefixLess(prefix, [path[|prefix|]]);
      }
    }
  }

  /** Pushes the children of a branch from slot 15 down to slot 0, marking their nodes used. */
  method PushChildren<E>(H: Keccak, store: WitnessStore, children: seq<Child>, parent: Frame, rest: seq<Frame>)
    returns (r: Result<seq<Frame>, WalkError<E>>)
    requires |children| == 16 && |parent.prefix| <= KEY_CAPACITY
    requires Shallow(rest) && Ordered(rest) && Left(parent.prefix, rest)
    modifies store
    ensures store.Content() == old(store.Content())
    ensures r.Err? ==> ChildrenEntries(old(store.Content()), children, parent.prefix, 0).None?
    ensures r.Err? ==> r.error.Expected()
    ensures r.Ok? ==> Pushed(H, old(store.Content()), children, parent, rest, old(store.UsedKeys()), 0,
                             r.value, store.UsedKeys())
  {
    ghost var content, before := store.Content(), store.UsedKeys();
    var stack := rest;
    var i: nat := 16;
    PushedNothing(H, content, children, parent, rest, before);
    while i > 0
      invariant i <= 16 && store.Content() == content
      invariant Pushed(H, content, children, parent, rest, before, i, stack, store.UsedKeys())
    {
      i := i - 1;
      var child := children[i];
      ghost var used := store.UsedKeys();
      if child.NoChild? {
        PushedVacant(H, content, children, parent, rest, before, i, stack, used);
      } else {
        if |parent.prefix| == KEY_CAPACITY {
          ChildrenFail(content, children, parent.prefix, 0, i);
          return Err(BadIndex(UnsupportedIndexWidth));
        }
        var next := store.ChildBytes(child);
        if next.Err? {
          ChildrenFail(content, children, parent.prefix, 0, i);
          return Err(TrieError(next.error));
        }
        var frame := Frame(next.value, parent.prefix + [i]);
        PushedFrame(H, content, children, parent, rest, before, i, stack, used, frame);
        stack := stack + [frame];
      }
    }
    r := Ok(stack);
  }

  // ----- one step of the traversal -----

  /** What holds between two iterations: the entries delivered so far followed by what the stack
      still holds are the entries of the whole trie, the hashes used so far and those still to be
      used are all its references, and everything still to come lies after the last key. */
  ghost predicate Walking(
    H: Keccak, content: Store, total: Option<seq<Entry>>, refs: set<Hash>,
    done: seq<Entry>, stack: seq<Frame>, used: set<Hash>)
  {
    && Both(Some(done), PendingEntries(content, stack)) == total
    && (PendingEntries(content, stack).Some? ==> used + PendingRefs(H, content, stack) == refs)
    && Shallow(stack) && Ordered(stack)
    && (done != [] ==> Before(done[|done| - 1].key, stack))
  }

  /** How a traversal must end, given the entries of the trie, if it resolves. */
  ghost predicate Outcome<S, E>(
    total: Option<seq<Entry>>, visit: (S, nat, Bytes) -> Result<S, E>, init: S, r: Result<S, WalkError<E>>)
  {
    match total
    case None => r.Err?
    case Some(es) =>
      if Keyed(es) && |es| < U64_LIMIT then
        match FoldVisits(visit, init, VisitsOf(es))
        case Ok(state) => r == Ok(state)
        case Err(e) => r == Err(Callback(e))
      else r.Err?
  }

  lemma StuckOutcome<S, E>(
      visit: (S, nat, Bytes) -> Result<S, E>, init: S, part: seq<Entry>, rest: Option<seq<Entry>>,
      error: WalkError<E>)
    requires Stuck(visit, init, part, error)
    ensures Outcome(Both(Some(part), rest), visit, init, Err(error))
  {
    if rest.Some? {
      var es := part + rest.value;
      if Keyed(es) && |es| < U64_LIMIT {
        assert forall i :: 0 <= i < |part| ==> es[i] == part[i];
        assert VisitsOf(es)[..|part|] == VisitsOf(part);
        FoldErrorStays(visit, init, VisitsOf(es), |part|);
      }
    }
  }

  lemma UnresolvedOutcome<S, E>(
      total: Option<seq<Entry>>, visit: (S, nat, Bytes) -> Result<S, E>, init: S, error: WalkError<E>)
    requires total.None?
    ensures Outcome(total, visit, init, Err(error))
  {
  }

  /** Popping a frame: its entries come next, before those of the rest of the stack. */
  lemma PopFrame(
      H: Keccak, content: Store, total: Option<seq<Entry>>, refs: set<Hash>,
      done: seq<Entry>, rest: seq<Frame>, f: Frame, used: set<Hash>)
    requires Walking(H, content, total, refs, done, rest + [f], used)
    ensures total == Both(Both(Some(done), FrameEntries(content, f)), PendingEntries(content, rest))
    ensures total.Some? ==> used + FrameRefs(H, content, f) + PendingRefs(H, content, rest) == refs
    ensures |f.prefix| <= KEY_CAPACITY && Shallow(rest) && Ordered(rest) && Left(f.prefix, rest)
    ensures done != [] ==> LexLess(done[|done| - 1].key, f.prefix) && Before(done[|done| - 1].key, rest)
  {
    var stack := rest + [f];
    PendingPush(content, rest, f);
    PendingRefsPush(H, content, rest, f);
    BothAssociative(Some(done), FrameEntries(content, f), PendingEntries(content, rest));
    assert stack[|rest|] == f;
    assert forall i :: 0 <= i < |rest| ==> stack[i] == rest[i];
  }

  lemma LeafStep(
      H: Keccak, content: Store, total: Option<seq<Entry>>, refs: set<Hash>,
      done: seq<Entry>, rest: seq<Frame>, f: Frame, used: set<Hash>)
    requires Walking(H, content, total, refs, done, rest + [f], used)
    requires ReadNode(f.raw).Ok? && ReadNode(f.raw).value.LeafNode?
    ensures |f.prefix| <= KEY_CAPACITY
    ensures var node := ReadNode(f.raw).value;
            if |f.prefix| + node.path.len > KEY_CAPACITY then total.None?
            else
              var key := f.prefix + node.path.Nibbles();
              var next := done + [Entry(key, node.value)];
              && Walking(H, content, total, refs, next, rest, used)
              && total == Both(Some(next), PendingEntries(content, rest))
              && (done != [] ==> LexLess(done[|done| - 1].key, key))
  {
    PopFrame(H, content, total, refs, done, rest, f, used);
    LeafFrame(H, content, f);
    var node := ReadNode(f.raw).value;
    LeftExtends(f.prefix, node.path.Nibbles(), rest);
    if done != [] {
      LessExtends(done[|done| - 1].key, f.prefix, node.path.Nibbles());
    }
  }

  lemma ExtensionStep(
      H: Keccak, content: Store, total: Option<seq<Entry>>, refs: set<Hash>,
      done: seq<Entry>, rest: seq<Frame>, f: Frame, used: set<Hash>)
    requires Consistent(H, content)
    requires Walking(H, content, total, refs, done, rest + [f], used)
    requires ReadNode(f.raw).Ok? && ReadNode(f.raw).value.ExtensionNode?
    ensures |f.prefix| <= KEY_CAPACITY
    ensures var node := ReadNode(f.raw).value;
            var prefix, next := f.prefix + node.path.Nibbles(), Resolve(content, node.child);
            if |prefix| > KEY_CAPACITY || next.Err? then total.None?
            else
              var g := Frame(next.value, prefix);
              && Walking(H, content, total, refs, done, rest + [g], used + OwnRef(node.child))
              && Weight(rest + [g]) < Weight(rest + [f])
  {
    PopFrame(H, content, total, refs, done, rest, f, used);
    ExtensionFrame(H, content, f);
    var node := ReadNode(f.raw).value;
    var prefix, next := f.prefix + node.path.Nibbles(), Resolve(content, node.child);
    if |prefix| <= KEY_CAPACITY && next.Ok? {
      var g := Frame(next.value, prefix);
      LeftExtends(f.prefix, node.path.Nibbles(), rest);
      if done != [] {
        LessExtends(done[|done| - 1].key, f.prefix, node.path.Nibbles());
      }
      PushFrame(H, content, total, refs, done, rest, g, used + OwnRef(node.child));
      WeightPush(rest, f);
      WeightPush(rest, g);
      LongerIsLighter(f, g);
    }
  }

  /** The converse of `PopFrame`. */
  lemma PushFrame(
      H: Keccak, content: Store, total: Option<seq<Entry>>, refs: set<Hash>,
      done: seq<Entry>, rest: seq<Frame>, g: Frame, used: set<Hash>)
    requires total == Both(Both(Some(done), FrameEntries(content, g)), PendingEntries(content, rest))
    requires total.Some? ==> used + FrameRefs(H, content, g) + PendingRefs(H, content, rest) == refs
    requires |g.prefix| <= KEY_CAPACITY && Shallow(rest) && Ordered(rest) && Left(g.prefix, rest)
    requires done != [] ==> LexLess(done[|done| - 1].key, g.prefix) && Before(done[|done| - 1].key, rest)
    ensures Walking(H, content, total, refs, done, rest + [g], used)
  {
    hide FrameEntries;
    hide FrameRefs;
    hide PendingEntries;
    hide PendingRefs;
    hide LexLess;
    PendingPush(content, rest, g);
    PendingRefsPush(H, content, rest, g);
    BothAssociative(Some(done), FrameEntries(content, g), PendingEntries(content, rest));
    OrderedPush(rest, g);
  }

  /** A branch first delivers its own value. */
  lemma BranchStep(
      H: Keccak, content: Store, total: Option<seq<Entry>>, refs: set<Hash>,
      done: seq<Entry>, rest: seq<Frame>, f: Frame, used: set<Hash>)
    requires Consistent(H, content)
    requires Walking(H, content, total, refs, done, rest + [f], used)
    requires ReadNode(f.raw).Ok? && ReadNode(f.raw).value.BranchNode?
    ensures |f.prefix| <= KEY_CAPACITY && Shallow(rest) && Ordered(rest) && Left(f.prefix, rest)
    ensures done != [] ==> LexLess(done[|done| - 1].key, f.prefix)
    ensures var next := done + OwnEntry(f.prefix, ReadNode(f.raw).value.value);
            next != [] ==>
              var last := next[|next| - 1].key;
              (last == f.prefix || LexLess(last, f.prefix)) && Before(last, rest)
    ensures var node := ReadNode(f.raw).value;
            if node.value == [] && NoChildren(node.children) then total.None?
            else
              var children := ChildrenEntries(content, node.children, f.prefix, 0);
              && total == Both(Some(done + OwnEntry(f.prefix, node.value)), Both(children, PendingEntries(content, rest)))
              && (total.Some? ==>
                    used + ChildrenRefs(H, content, node.children, f.prefix, 0) + PendingRefs(H, content, rest) == refs)
  {
    PopFrame(H, content, total, refs, done, rest, f, used);
    BranchFrame(H, content, f);
    BeforeRest(f.prefix, rest);
    hide ReadNode;
    hide Walking;
    hide ChildrenEntries;
    hide ChildrenRefs;
    hide PendingEntries;
    hide PendingRefs;
    hide FrameEntries;
    hide FrameRefs;
    var node := ReadNode(f.raw).value;
    var own, children := Some(OwnEntry(f.prefix, node.value)), ChildrenEntries(content, node.children, f.prefix, 0);
    BothAssociative(Some(done), own, children);
    BothAssociative(Both(Some(done), own), children, PendingEntries(content, rest));
  }

  /** Then its children are on the stack. */
  lemma ChildrenPushed(
      H: Keccak, content: Store, total: Option<seq<Entry>>, refs: set<Hash>,
      done: seq<Entry>, rest: seq<Frame>, f: Frame, children: seq<Child>, before: set<Hash>,
      stack: seq<Frame>, used: set<Hash>)
    requires |children| == 16 && Left(f.prefix, rest) && |f.prefix| <= KEY_CAPACITY
    requires total == Both(Some(done), Both(ChildrenEntries(content, children, f.prefix, 0), PendingEntries(content, rest)))
    requires total.Some? ==>
               before + ChildrenRefs(H, content, children, f.prefix, 0) + PendingRefs(H, content, rest) == refs
    requires Pushed(H, content, children, f, rest, before, 0, stack, used)
    requires done != [] ==>
               var last := done[|done| - 1].key;
               (last == f.prefix || LexLess(last, f.prefix)) && Before(last, rest)
    ensures Walking(H, content, total, refs, done, stack, used)
    ensures Weight(stack) < Weight(rest + [f])
  {
    LeftExtends(f.prefix, [], rest);
    assert f.prefix + [] == f.prefix;
    BeforeSiblings(f.prefix, rest, stack);
    if done != [] {
      var last := done[|done| - 1].key;
      forall k | 0 <= k < |stack| ensures LexLess(last, stack[k].prefix) {
        if last != f.prefix {
          LexTransitive(last, f.prefix, stack[k].prefix);
        }
      }
    }
    WeightPush(rest, f);
    TimesIsProduct(16, FrameWeight(f) / 17);
  }

  /** The leaf case of the loop. */
  method WalkLeaf<S, E>(
      ghost H: Keccak, ghost content: Store, ghost total: Option<seq<Entry>>, ghost refs: set<Hash>,
      ghost done: seq<Entry>, ghost rest: seq<Frame>, f: Frame, ghost used: set<Hash>, path: Path, value: Bytes,
      visit: (S, nat, Bytes) -> Result<S, E>, ghost init: S, state: S, indices: Indices)
    returns (r: Result<S, WalkError<E>>, ghost next: seq<Entry>)
    requires Walking(H, content, total, refs, done, rest + [f], used)
    requires ReadNode(f.raw) == Ok(LeafNode(path, value))
    requires indices.Tracks(done) && FoldVisits(visit, init, VisitsOf(done)) == Ok(state)
    modifies indices
    ensures r.Ok? ==> Walking(H, content, total, refs, next, rest, used)
    ensures r.Ok? ==> indices.Tracks(next) && FoldVisits(visit, init, VisitsOf(next)) == Ok(r.value)
    ensures r.Err? ==> Outcome(total, visit, init, r) && r.error.Expected()
  {
    next := done;
    LeafStep(H, content, total, refs, done, rest, f, used);
    var key :- AppendPath<E>(f.prefix, path);
    r := RecordVisit(indices, key, value, visit, init, state, done);
    next := done + [Entry(key, value)];
    if r.Err? {
      StuckOutcome(visit, init, next, PendingEntries(content, rest), r.error);
    }
  }

  /** The extension case of the loop. */
  method WalkExtension<E>(
      ghost H: Keccak, ghost total: Option<seq<Entry>>, ghost refs: set<Hash>,
      ghost done: seq<Entry>, rest: seq<Frame>, f: Frame, path: Path, child: Child, store: WitnessStore)
    returns (r: Result<seq<Frame>, WalkError<E>>)
    requires Consistent(H, store.Content())
    requires Walking(H, store.Content(), total, refs, done, rest + [f], store.UsedKeys())
    requires ReadNode(f.raw) == Ok(ExtensionNode(path, child))
    modifies store
    ensures store.Content() == old(store.Content())
    ensures r.Ok? ==> Walking(H, store.Content(), total, refs, done, r.value, store.UsedKeys())
    ensures r.Ok? ==> Weight(r.value) < Weight(rest + [f])
    ensures r.Err? ==> total.None? && r.error.Expected()
  {
    ExtensionStep(H, store.Content(), total, refs, done, rest, f, store.UsedKeys());
    var prefix :- AppendPath<E>(f.prefix, path);
    var next := store.ChildBytes(child);
    if next.Err? {
      return Err(TrieError(next.error));
    }
    r := Ok(rest + [Frame(next.value, prefix)]);
  }

  /** A branch records its own value, if it has one. */
  method WalkOwnValue<S, E>(
      prefix: Nibbles, value: Bytes, visit: (S, nat, Bytes) -> Result<S, E>, ghost init: S, state: S,
      ghost done: seq<Entry>, ghost below: Option<seq<Entry>>, indices: Indices)
    returns (r: Result<S, WalkError<E>>)
    requires indices.Tracks(done) && FoldVisits(visit, init, VisitsOf(done)) == Ok(state)
    requires done != [] ==> LexLess(done[|done| - 1].key, prefix)
    modifies indices
    ensures var next := done + OwnEntry(prefix, value);
            && (r.Ok? ==> indices.Tracks(next) && FoldVisits(visit, init, VisitsOf(next)) == Ok(r.value))
            && (r.Err? ==> Outcome(Both(Some(next), below), visit, init, r) && r.error.Expected())
  {
    if value == [] {
      assert done + OwnEntry(prefix, value) == done;
      return Ok(state);
    }
    r := RecordVisit(indices, prefix, value, visit, init, state, done);
    if r.Err? {
      StuckOutcome(visit, init, done + OwnEntry(prefix, value), below, r.error);
    }
  }

  /** A branch pushes its children once its own value is recorded in `next`. */
  method WalkChildren<E>(
      H: Keccak, ghost content: Store, ghost total: Option<seq<Entry>>, ghost refs: set<Hash>,
      ghost next: seq<Entry>, rest: seq<Frame>, f: Frame, children: seq<Child>, store: WitnessStore)
    returns (r: Result<seq<Frame>, WalkError<E>>)
    requires store.Content() == content && |children| == 16
    requires |f.prefix| <= KEY_CAPACITY && Shallow(rest) && Ordered(rest) && Left(f.prefix, rest)
    requires total == Both(Some(next), Both(ChildrenEntries(content, children, f.prefix, 0), PendingEntries(content, rest)))
    requires total.Some? ==>
               store.UsedKeys() + ChildrenRefs(H, content, children, f.prefix, 0) + PendingRefs(H, content, rest) == refs
    requires next != [] ==>
               var last := next[|next| - 1].key;
               (last == f.prefix || LexLess(last, f.prefix)) && Before(last, rest)
    modifies store
    ensures store.Content() == content
    ensures r.Ok? ==> Walking(H, content, total, refs, next, r.value, store.UsedKeys())
    ensures r.Ok? ==> Weight(r.value) < Weight(rest + [f])
    ensures r.Err? ==> total.None? && r.error.Expected()
  {
    ghost var used := store.UsedKeys();
    r := PushChildren<E>(H, store, children, f, rest);
    if r.Ok? {
      ChildrenPushed(H, content, total, refs, next, rest, f, children, used, r.value, store.UsedKeys());
    }
  }

  /** The branch case of the loop: the branch value, then the children. */
  method WalkBranch<S, E>(
      H: Keccak, ghost content: Store, ghost total: Option<seq<Entry>>, ghost refs: set<Hash>,
      ghost done: seq<Entry>, rest: seq<Frame>, f: Frame, children: seq<Child>, value: Bytes,
      visit: (S, nat, Bytes) -> Result<S, E>, ghost init: S, state: S, store: WitnessStore, indices: Indices)
    returns (r: Result<seq<Frame>, WalkError<E>>, after: S, ghost next: seq<Entry>)
    requires Consistent(H, content) && store.Content() == content
    requires Walking(H, content, total, refs, done, rest + [f], store.UsedKeys())
    requires ReadNode(f.raw) == Ok(BranchNode(children, value))
    requires indices.Tracks(done) && FoldVisits(visit, init, VisitsOf(done)) == Ok(state)
    modifies store, indices
    ensures store.Content() == content
    ensures r.Ok? ==> Walking(H, content, total, refs, next, r.value, store.UsedKeys())
    ensures r.Ok? ==> Weight(r.value) < Weight(rest + [f])
    ensures r.Ok? ==> indices.Tracks(next) && FoldVisits(visit, init, VisitsOf(next)) == Ok(after)
    ensures r.Err? ==> Outcome(total, visit, init, Err(r.error)) && r.error.Expected()
  {
    hide ReadNode;
    hide Walking;
    hide Outcome;
    hide ChildrenEntries;
    hide ChildrenRefs;
    hide PendingEntries;
    hide PendingRefs;
    hide FoldVisits;
    hide Weight;
    after, next := state, done + OwnEntry(f.prefix, value);
    BranchStep(H, content, total, refs, done, rest, f, store.UsedKeys());
    if value == [] && NoChildren(children) {
      r := Err(NonCanonicalEmptyTrie);
      UnresolvedOutcome(total, visit, init, NonCanonicalEmptyTrie);
      return;
    }
    ghost var below := Both(ChildrenEntries(content, children, f.prefix, 0), PendingEntries(content, rest));
    var recorded := WalkOwnValue(f.prefix, value, visit, init, state, done, below, indices);
    if recorded.Err? {
      r := Err(recorded.error);
      return;
    }
    after := recorded.value;
    r := WalkChildren<E>(H, content, total, refs, next, rest, f, children, store);
    if r.Err? {
      UnresolvedOutcome(total, visit, init, r.error);
    }
  }

  lemma BeforeRest(prefix: Nibbles, rest: seq<Frame>)
    requires Left(prefix, rest)
    ensures Before(prefix, rest)
  {
    LeftExtends(prefix, [], rest);
    assert prefix + [] == prefix;
  }

  /** The walker's loop. It delivers the entries of the trie to the visitor in key order, marks
      every referenced node, and never meets a key out of order. It terminates on every corpus,
      cyclic ones included. */
  method Walk<S, E>(
      H: Keccak, store: WitnessStore, root: Bytes, visit: (S, nat, Bytes) -> Result<S, E>, init: S, indices: Indices)
    returns (r: Result<S, WalkError<E>>)
    requires Consistent(H, store.Content()) && indices.Tracks([])
    modifies store, indices
    ensures store.Content() == old(store.Content())
    ensures var total := FrameEntries(store.Content(), Frame(root, []));
            && Outcome(total, visit, init, r)
            && (r.Ok? ==>
                  && total.Some? && indices.Tracks(total.value)
                  && store.UsedKeys() == old(store.UsedKeys()) + FrameRefs(H, store.Content(), Frame(root, [])))
    ensures r.Err? ==> r.error.Expected()
  {
    hide ReadNode;
    hide Walking;
    hide Outcome;
    hide FoldVisits;
    hide Weight;
    hide FrameEntries;
    hide FrameRefs;
    ghost var content, first := store.Content(), Frame(root, []);
    ghost var total, refs := FrameEntries(content, first), store.UsedKeys() + FrameRefs(H, content, first);
    ghost var done: seq<Entry> := [];
    var stack := [Frame(root, [])];
    var state := init;
    StartWalking(H, content, first, store.UsedKeys());
    NothingVisited(visit, init);
    while stack != []
      invariant store.Content() == content
      invariant Walking(H, content, total, refs, done, stack, store.UsedKeys())
      invariant indices.Tracks(done) && FoldVisits(visit, init, VisitsOf(done)) == Ok(state)
      decreases Weight(stack)
    {
      var f, rest := stack[|stack| - 1], stack[..|stack| - 1];
      assert stack == rest + [f];
      var read := ParseNode(f.raw);
      if read.Err? {
        Unreadable(H, content, total, refs, done, rest, f, store.UsedKeys());
        UnresolvedOutcome(total, visit, init, TrieError(read.error));
        return Err(TrieError(read.error));
      }
      match read.value
      case LeafNode(path, value) =>
        ghost var next;
        r, next := WalkLeaf(
          H, content, total, refs, done, rest, f, store.UsedKeys(), path, value, visit, init, state, indices);
        if r.Err? {
          return;
        }
        WeightPush(rest, f);
        state, done, stack := r.value, next, rest;
      case ExtensionNode(path, child) =>
        var pushed := WalkExtension<E>(H, total, refs, done, rest, f, path, child, store);
        if pushed.Err? {
          UnresolvedOutcome(total, visit, init, pushed.error);
          return Err(pushed.error);
        }
        stack := pushed.value;
      case BranchNode(children, value) =>
        var pushed, after;
        ghost var next;
        pushed, after, next :=
          WalkBranch(H, content, total, refs, done, rest, f, children, value, visit, init, state, store, indices);
        if pushed.Err? {
          return Err(pushed.error);
        }
        stack, state, done := pushed.value, after, next;
    }
    WalkEnds(H, content, total, refs, done, store.UsedKeys(), visit, init, state, indices);
    r := Ok(state);
  }

  lemma NothingVisited<S, E>(visit: (S, nat, Bytes) -> Result<S, E>, init: S)
    ensures FoldVisits(visit, init, VisitsOf([])) == Ok(init)
  {
  }

  lemma Unreadable(
      H: Keccak, content: Store, total: Option<seq<Entry>>, refs: set<Hash>,
      done: seq<Entry>, rest: seq<Frame>, f: Frame, used: set<Hash>)
    requires Walking(H, content, total, refs, done, rest + [f], used) && ReadNode(f.raw).Err?
    ensures total.None?
  {
    PopFrame(H, content, total, refs, done, rest, f, used);
  }

  /** An empty stack: everything is delivered and everything is used. */
  lemma WalkEnds<S, E>(
      H: Keccak, content: Store, total: Option<seq<Entry>>, refs: set<Hash>, done: seq<Entry>, used: set<Hash>,
      visit: (S, nat, Bytes) -> Result<S, E>, init: S, state: S, indices: Indices)
    requires Walking(H, content, total, refs, done, [], used)
    requires indices.Tracks(done) && FoldVisits(visit, init, VisitsOf(done)) == Ok(state)
    ensures total == Some(done) && used == refs
    ensures Outcome(total, visit, init, Ok(state))
  {
    PendingNothing(H, content);
    assert done + [] == done;
  }

  lemma StartWalking(H: Keccak, content: Store, first: Frame, used: set<Hash>)
    requires |first.prefix| <= KEY_CAPACITY
    ensures Walking(H, content, FrameEntries(content, first), used + FrameRefs(H, content, first), [], [first], used)
  {
    PendingNothing(H, content);
    hide FrameEntries;
    hide FrameRefs;
    hide PendingEntries;
    hide PendingRefs;
    hide LexLess;
    assert [first] == [] + [first];
    PendingPush(content, [], first);
    PendingRefsPush(H, content, [], first);
    BothNothing(FrameEntries(content, first));
  }

  lemma PendingNothing(H: Keccak, content: Store)
    ensures PendingEntries(content, []) == Some([]) && PendingRefs(H, content, []) == {}
  {
  }
}
