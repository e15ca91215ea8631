/** Authenticated raw-key lookup: the Rust proof verifier, what its answers mean, and which proofs
    it accepts. */
module LookupProof {
  import opened Prelude
  import opened HexPrefix
  import opened Tries
  import opened NodeCodec
  import Rlp
  import RlpTree

  datatype Answer = Present(value: Bytes) | Absent

  function AnswerOf(found: Option<Bytes>): Answer {
    match found
    case Some(value) => Present(value)
    case None => Absent
  }

  function EmptyRoot(H: Keccak): Hash {
    H([0x80])
  }

  // ----- one node of a lookup path -----

  /** What a node says about a key: the answer, or the child to descend into and the nibbles used. */
  datatype Move = Answered(answer: Answer) | Descend(child: Child, used: nat)

  function NextMove(node: Node, key: Nibbles): (m: Move)
    requires node.BranchNode? ==> |node.children| == 16
    requires node.LeafNode? ==> node.path.Valid()
    requires node.ExtensionNode? ==> node.path.Valid() && node.path.len > 0
    ensures m.Descend? ==> 0 < m.used <= |key|
  {
    match node
    case BranchNode(children, value) =>
      if key == [] then Answered(if value == [] then Absent else Present(value))
      else if children[key[0]].NoChild? then Answered(Absent)
      else Descend(children[key[0]], 1)
    case LeafNode(path, value) =>
      Answered(if path.Nibbles() == key then Present(value) else Absent)
    case ExtensionNode(path, child) =>
      if path.Nibbles() <= key then Descend(child, path.len) else Answered(Absent)
  }

  /** `NextMove` on a raw key, as the loops compute it at `position`. */
  method TakeMove(node: Node, rawKey: Bytes, position: nat) returns (m: Move)
    requires node.BranchNode? ==> |node.children| == 16
    requires node.LeafNode? ==> node.path.Valid()
    requires node.ExtensionNode? ==> node.path.Valid() && node.path.len > 0
    requires position <= 2 * |rawKey|
    ensures m == NextMove(node, NibblesOf(rawKey)[position..])
  {
    var keyLen := 2 * |rawKey|;
    match node
    case BranchNode(children, value) =>
      if position == keyLen {
        return Answered(if value == [] then Absent else Present(value));
      }
      NibbleAtSuffix(rawKey, position, 0);
      var child := children[NibbleAt(rawKey, position)];
      return if child.NoChild? then Answered(Absent) else Descend(child, 1);
    case LeafNode(path, value) =>
      MatchesIsPrefix(path, rawKey, position);
      var found := path.Matches(rawKey, position, keyLen) && position + path.len == keyLen;
      return Answered(if found then Present(value) else Absent);
    case ExtensionNode(path, child) =>
      MatchesIsPrefix(path, rawKey, position);
      return if path.Matches(rawKey, position, keyLen) then Descend(child, path.len) else Answered(Absent);
  }

  /** The subtrie a key enters, and the nibbles used to get there. */
  function Entered(t: Trie, key: Nibbles): Option<Trie> {
    match t
    case Leaf(_, _) => None
    case Extension(path, child) => if path <= key then Some(child) else None
    case Branch(children, _) =>
      if key != [] && key[0] < |children| && children[key[0]].Occupied? then Some(children[key[0]].node)
      else None
  }

  function Used(t: Trie): nat {
    if t.Extension? then |t.path| else 1
  }

  /** The move at an encoded trie node follows the abstract trie. */
  lemma MoveOfTrie(H: Keccak, t: Trie, key: Nibbles)
    requires WellFormed(t) && Addressable(H, t)
    ensures ReadNode(EncodeNode(H, t)) == Ok(View(H, t))
    ensures var m := NextMove(ReadNode(EncodeNode(H, t)).value, key);
            match Entered(t, key)
            case None => m == Answered(AnswerOf(Lookup(t, key)))
            case Some(below) =>
              && m == Descend(ChildOf(H, below), Used(t))
              && Used(t) <= |key|
              && Lookup(t, key) == Lookup(below, key[Used(t)..])
              && WellFormed(below) && Addressable(H, below)
              && HashedNodes(H, below) <= HashedBelow(H, t)
              && Span(t) >= Used(t) + Span(below)
  {
    ReadTrie(H, t);
    assert AddressableBelow(H, t);
    match t
    case Leaf(path, value) => PathOfRead(path, true);
    case Extension(path, child) => PathOfRead(path, false);
    case Branch(children, value) =>
      if key != [] && children[key[0]].Occupied? {
        HashedInSlotsContains(H, children, key[0]);
        SlotSpanBound(children, key[0]);
      }
  }

  // ----- the verifier -----

  datatype Step = Step(raw: Bytes, cursor: nat)

  /** The next node on the path. An inline node may be repeated in the proof. */
  function Follow(H: Keccak, child: Child, proof: seq<Bytes>, cursor: nat): (r: Result<Step, Error>)
    requires cursor <= |proof|
    ensures r.Ok? ==> cursor <= r.value.cursor <= |proof|
  {
    match child
    case NoChild => Err(InvalidChildReference)
    case EmbeddedChild(raw) =>
      Ok(Step(raw, if cursor < |proof| && proof[cursor] == raw then cursor + 1 else cursor))
    case HashChild(hash) =>
      if cursor == |proof| then Err(IncompleteProof)
      else if H(proof[cursor]) != hash then Err(HashMismatch)
      else if |proof[cursor]| < 32 then Err(NonCanonicalChildReference)
      else Ok(Step(proof[cursor], cursor + 1))
  }

  function Finish(answer: Answer, consumed: nat, supplied: nat): Result<Answer, Error> {
    if consumed != supplied then Err(TrailingProofNodes) else Ok(answer)
  }

  /** Verifies the remaining key below an authenticated node. */
  function VerifyFrom(H: Keccak, encoded: Bytes, key: Nibbles, proof: seq<Bytes>, cursor: nat)
    : Result<Answer, Error>
    requires cursor <= |proof|
    decreases |key|
  {
    var node :- ReadNode(encoded);
    match NextMove(node, key)
    case Answered(answer) => Finish(answer, cursor, |proof|)
    case Descend(child, used) =>
      var step :- Follow(H, child, proof, cursor);
      VerifyFrom(H, step.raw, key[used..], proof, step.cursor)
  }

  function VerifyRaw(H: Keccak, root: Hash, rawKey: Bytes, proof: seq<Bytes>): Result<Answer, Error> {
    if root == EmptyRoot(H) then
      if proof == [] || proof == [[0x80]] then Ok(Absent) else Err(TrailingProofNodes)
    else if proof == [] then Err(IncompleteProof)
    else if H(proof[0]) != root then Err(HashMismatch)
    else VerifyFrom(H, proof[0], NibblesOf(rawKey), proof, 1)
  }

  /** The verifier's loop over `encoded`, `position` and `cursor`. */
  method VerifyProof(H: Keccak, root: Hash, rawKey: Bytes, proof: seq<Bytes>)
    returns (r: Result<Answer, Error>)
    ensures r == VerifyRaw(H, root, rawKey, proof)
  {
    hide ReadNode;
    hide NextMove;
    hide NibblesOf;
    if root == EmptyRoot(H) {
      return if proof == [] || proof == [[0x80]] then Ok(Absent) else Err(TrailingProofNodes);
    }
    if |proof| == 0 {
      return Err(IncompleteProof);
    }
    var encoded := proof[0];
    if H(encoded) != root {
      return Err(HashMismatch);
    }
    var cursor: nat, position: nat := 1, 0;
    ghost var key := NibblesOf(rawKey);
    assert key[0..] == key;
    while true
      invariant position <= |key| && cursor <= |proof|
      invariant VerifyFrom(H, encoded, key[position..], proof, cursor) == VerifyRaw(H, root, rawKey, proof)
      decreases |key| - position
    {
      var node :- ParseNode(encoded);
      var move := TakeMove(node, rawKey, position);
      if move.Answered? {
        return Finish(move.answer, cursor, |proof|);
      }
      assert key[position..][move.used..] == key[position + move.used..];
      position := position + move.used;
      var step :- Follow(H, move.child, proof, cursor);
      encoded, cursor := step.raw, step.cursor;
    }
  }

  // ----- what an accepted proof means -----

  ghost function Elements(proof: seq<Bytes>): set<Bytes> {
    set b | b in proof
  }

  /** Two accepted proofs of one key under one root give the same answer, inline nodes omitted or
      repeated as the prover likes, unless two different proof nodes collide. */
  lemma LookupBinding(H: Keccak, root: Hash, rawKey: Bytes, p: seq<Bytes>, q: seq<Bytes>)
    requires VerifyRaw(H, root, rawKey, p).Ok? && VerifyRaw(H, root, rawKey, q).Ok?
    ensures VerifyRaw(H, root, rawKey, p) == VerifyRaw(H, root, rawKey, q)
            || Collides(H, Elements(p) + Elements(q))
  {
    if root != EmptyRoot(H) && !Collides(H, Elements(p) + Elements(q)) {
      assert p[0] in Elements(p) && q[0] in Elements(q);
      BindingFrom(H, p[0], NibblesOf(rawKey), p, 1, q, 1);
    }
  }

  lemma {:induction false} BindingFrom(
      H: Keccak, encoded: Bytes, key: Nibbles, p: seq<Bytes>, i: nat, q: seq<Bytes>, j: nat)
    requires i <= |p| && j <= |q| && !Collides(H, Elements(p) + Elements(q))
    requires VerifyFrom(H, encoded, key, p, i).Ok? && VerifyFrom(H, encoded, key, q, j).Ok?
    ensures VerifyFrom(H, encoded, key, p, i) == VerifyFrom(H, encoded, key, q, j)
    decreases |key|
  {
    var m := NextMove(ReadNode(encoded).value, key);
    if m.Descend? {
      var s, u := Follow(H, m.child, p, i).value, Follow(H, m.child, q, j).value;
      if m.child.HashChild? {
        assert p[i] in Elements(p) && q[j] in Elements(q);
      }
      BindingFrom(H, s.raw, key[m.used..], p, s.cursor, q, u.cursor);
    }
  }

  /** An accepted proof answers with the content of the committed trie, presence and absence alike,
      unless a proof node and a node of the trie collide. */
  lemma VerifiedAnswerIsLookup(H: Keccak, t: Trie, rawKey: Bytes, proof: seq<Bytes>)
    requires WellFormed(t) && Addressable(H, t)
    requires VerifyRaw(H, RootHash(H, t), rawKey, proof).Ok?
    ensures VerifyRaw(H, RootHash(H, t), rawKey, proof).value == AnswerOf(Lookup(t, NibblesOf(rawKey)))
            || Collides(H, Elements(proof) + Corpus(H, t) + {[0x80]})
  {
    var nodes := Elements(proof) + Corpus(H, t) + {[0x80]};
    if !Collides(H, nodes) {
      var root := EncodeNode(H, t);
      RootIsNotEmpty(H, t);
      assert root in nodes && [0x80] in nodes;
      assert RootHash(H, t) != EmptyRoot(H);
      assert proof[0] in nodes;
      AnswerFrom(H, t, NibblesOf(rawKey), proof, 1, nodes);
    }
  }

  lemma RootIsNotEmpty(H: Keccak, t: Trie)
    requires WellFormed(t) && Addressable(H, t)
    ensures EncodeNode(H, t) != [0x80]
  {
    ReadTrie(H, t);
    assert Rlp.Prefix([0x80]) == Ok(Rlp.Span(1, 0, false));
  }

  lemma {:induction false} AnswerFrom(
      H: Keccak, t: Trie, key: Nibbles, proof: seq<Bytes>, cursor: nat, nodes: set<Bytes>)
    requires WellFormed(t) && Addressable(H, t) && cursor <= |proof|
    requires !Collides(H, nodes) && Elements(proof) <= nodes && HashedBelow(H, t) <= nodes
    requires VerifyFrom(H, EncodeNode(H, t), key, proof, cursor).Ok?
    ensures VerifyFrom(H, EncodeNode(H, t), key, proof, cursor).value == AnswerOf(Lookup(t, key))
    decreases |key|
  {
    MoveOfTrie(H, t, key);
    var entered := Entered(t, key);
    if entered.Some? {
      var below := entered.value;
      var s := Follow(H, ChildOf(H, below), proof, cursor).value;
      if |EncodeNode(H, below)| >= 32 {
        assert proof[cursor] in Elements(proof);
        assert EncodeNode(H, below) in HashedNodes(H, below);
      }
      AnswerFrom(H, below, key[Used(t)..], proof, s.cursor, nodes);
    }
  }

  // ----- which proofs are accepted -----

  /** The proof nodes that may follow a trie node on the path of a key: hashed nodes must be supplied,
      inline nodes may be omitted or repeated. */
  ghost predicate Supplies(H: Keccak, t: Trie, key: Nibbles, rest: seq<Bytes>)
    decreases t
  {
    match Entered(t, key)
    case None => rest == []
    case Some(below) =>
      var encoded, onward := EncodeNode(H, below), key[if Used(t) <= |key| then Used(t) else |key|..];
      || (|encoded| < 32 && Supplies(H, below, onward, rest))
      || (rest != [] && rest[0] == encoded && Supplies(H, below, onward, rest[1..]))
  }

  /** An inline child is strictly shorter than its parent. */
  lemma InlineIsShorter(H: Keccak, t: Trie, key: Nibbles)
    requires WellFormed(t) && Addressable(H, t) && Entered(t, key).Some?
    requires |EncodeNode(H, Entered(t, key).value)| < 32
    ensures |EncodeNode(H, Entered(t, key).value)| < |EncodeNode(H, t)|
  {
    var i := if t.Extension? then 1 else key[0];
    if t.Branch? {
      SlotStructureAt(H, t.children, i);
    }
    FieldIsShorter(H, t, i);
  }

  lemma FieldIsShorter(H: Keccak, t: Trie, i: nat)
    requires |EncodeNode(H, t)| < U64_LIMIT && i < |NodeStructure(H, t).items|
    ensures |RlpTree.Encode(NodeStructure(H, t).items[i])| < |EncodeNode(H, t)|
  {
    var items := NodeStructure(H, t).items;
    RlpTree.EncodeAllBound(items, i);
    Rlp.HeaderSize(true, |RlpTree.EncodeAll(items)|);
  }

  lemma {:induction false} SuppliedSizes(H: Keccak, t: Trie, key: Nibbles, rest: seq<Bytes>)
    requires WellFormed(t) && Addressable(H, t) && Supplies(H, t, key, rest) && rest != []
    ensures |rest[0]| >= 32 || |rest[0]| < |EncodeNode(H, t)|
    decreases t
  {
    MoveOfTrie(H, t, key);
    var below := Entered(t, key).value;
    if |EncodeNode(H, below)| < 32 {
      InlineIsShorter(H, t, key);
      if Supplies(H, below, key[Used(t)..], rest) {
        EnteredIsSmaller(t, key);
        SuppliedSizes(H, below, key[Used(t)..], rest);
      }
    }
  }

  lemma EnteredIsSmaller(t: Trie, key: Nibbles)
    requires Entered(t, key).Some?
    ensures t decreases to Entered(t, key).value
  {
  }

  /** Every such proof is accepted with the content of the trie, for present and absent keys. */
  lemma SuppliedProofAccepted(H: Keccak, t: Trie, rawKey: Bytes, rest: seq<Bytes>)
    requires WellFormed(t) && Addressable(H, t) && RootHash(H, t) != EmptyRoot(H)
    requires Supplies(H, t, NibblesOf(rawKey), rest)
    ensures VerifyRaw(H, RootHash(H, t), rawKey, [EncodeNode(H, t)] + rest) ==
            Ok(AnswerOf(Lookup(t, NibblesOf(rawKey))))
  {
    SuppliedFrom(H, t, NibblesOf(rawKey), [EncodeNode(H, t)], rest);
  }

  /** The verifier at an encoded trie node. */
  lemma VerifyAtTrie(H: Keccak, t: Trie, key: Nibbles, proof: seq<Bytes>, cursor: nat)
    requires WellFormed(t) && Addressable(H, t) && cursor <= |proof|
    ensures var r := VerifyFrom(H, EncodeNode(H, t), key, proof, cursor);
            match Entered(t, key)
            case None => r == Finish(AnswerOf(Lookup(t, key)), cursor, |proof|)
            case Some(below) =>
              Used(t) <= |key| &&
              match Follow(H, ChildOf(H, below), proof, cursor)
              case Err(e) => r == Err(e)
              case Ok(s) => r == VerifyFrom(H, s.raw, key[Used(t)..], proof, s.cursor)
  {
    MoveOfTrie(H, t, key);
  }

  lemma {:induction false} SuppliedFrom(
      H: Keccak, t: Trie, key: Nibbles, consumed: seq<Bytes>, rest: seq<Bytes>)
    requires WellFormed(t) && Addressable(H, t) && Supplies(H, t, key, rest)
    ensures VerifyFrom(H, EncodeNode(H, t), key, consumed + rest, |consumed|) == Ok(AnswerOf(Lookup(t, key)))
    decreases |key|
  {
    VerifyAtTrie(H, t, key, consumed + rest, |consumed|);
    if Entered(t, key).Some? {
      MoveOfTrie(H, t, key);
      SuppliedStep(H, t, key, consumed, rest);
    }
  }

  lemma {:induction false} SuppliedStep(
      H: Keccak, t: Trie, key: Nibbles, consumed: seq<Bytes>, rest: seq<Bytes>)
    requires WellFormed(t) && Addressable(H, t) && Supplies(H, t, key, rest)
    requires Entered(t, key).Some? && Used(t) <= |key|
    requires WellFormed(Entered(t, key).value) && Addressable(H, Entered(t, key).value)
    ensures var s := Follow(H, ChildOf(H, Entered(t, key).value), consumed + rest, |consumed|);
            var onward := key[Used(t)..];
            s.Ok? && VerifyFrom(H, s.value.raw, onward, consumed + rest, s.value.cursor)
                     == Ok(AnswerOf(Lookup(Entered(t, key).value, onward)))
    decreases |key|, 0
  {
    hide VerifyFrom;
    hide EncodeNode;
    hide Follow;
    hide Lookup;
    hide Addressable;
    var below, onward := Entered(t, key).value, key[Used(t)..];
    var encoded := EncodeNode(H, below);
    FollowChild(H, below, consumed, rest);
    if rest != [] && rest[0] == encoded && Supplies(H, below, onward, rest[1..]) {
      assert consumed + rest == (consumed + [encoded]) + rest[1..];
      SuppliedFrom(H, below, onward, consumed + [encoded], rest[1..]);
    } else {
      if rest != [] {
        SuppliedSizes(H, below, onward, rest);
      }
      SuppliedFrom(H, below, onward, consumed, rest);
    }
  }

  /** Following a reference when the proof continues with the child, or omits an inline child. */
  lemma FollowChild(H: Keccak, below: Trie, consumed: seq<Bytes>, rest: seq<Bytes>)
    ensures var encoded := EncodeNode(H, below);
            var s := Follow(H, ChildOf(H, below), consumed + rest, |consumed|);
            && (rest != [] && rest[0] == encoded ==> s == Ok(Step(encoded, |consumed| + 1)))
            && (|encoded| < 32 && !(rest != [] && rest[0] == encoded) ==> s == Ok(Step(encoded, |consumed|)))
  {
    assert rest != [] ==> (consumed + rest)[|consumed|] == rest[0];
  }

  /** And no other: an accepted proof is the root followed by nodes that supply the path, with nothing
      left over, unless two of the nodes collide. */
  lemma AcceptedProofSupplied(H: Keccak, t: Trie, rawKey: Bytes, proof: seq<Bytes>)
    requires WellFormed(t) && Addressable(H, t)
    requires VerifyRaw(H, RootHash(H, t), rawKey, proof).Ok?
    ensures || (proof != [] && proof[0] == EncodeNode(H, t) && Supplies(H, t, NibblesOf(rawKey), proof[1..]))
            || Collides(H, Elements(proof) + Corpus(H, t) + {[0x80]})
  {
    var nodes := Elements(proof) + Corpus(H, t) + {[0x80]};
    if !Collides(H, nodes) {
      var root := EncodeNode(H, t);
      RootIsNotEmpty(H, t);
      assert root in nodes && [0x80] in nodes;
      assert RootHash(H, t) != EmptyRoot(H);
      assert proof[0] in nodes;
      SuppliesFrom(H, t, NibblesOf(rawKey), proof, 1, nodes);
    }
  }

  lemma {:induction false} SuppliesFrom(
      H: Keccak, t: Trie, key: Nibbles, proof: seq<Bytes>, cursor: nat, nodes: set<Bytes>)
    requires WellFormed(t) && Addressable(H, t) && cursor <= |proof|
    requires !Collides(H, nodes) && Elements(proof) <= nodes && HashedBelow(H, t) <= nodes
    requires VerifyFrom(H, EncodeNode(H, t), key, proof, cursor).Ok?
    ensures Supplies(H, t, key, proof[cursor..])
    decreases |key|
  {
    hide ReadNode;
    hide EncodeNode;
    hide Collides;
    MoveOfTrie(H, t, key);
    VerifyAtTrie(H, t, key, proof, cursor);
    if Entered(t, key).Some? {
      var below := Entered(t, key).value;
      var s := Follow(H, ChildOf(H, below), proof, cursor).value;
      FollowedNode(H, below, proof, cursor, nodes);
      SuppliesFrom(H, below, key[Used(t)..], proof, s.cursor, nodes);
      assert s.cursor == cursor + 1 ==> proof[cursor..][1..] == proof[s.cursor..];
    }
  }

  /** Following a reference leads to the child; a node taken from the proof on the way is its encoding. */
  lemma FollowedNode(H: Keccak, below: Trie, proof: seq<Bytes>, cursor: nat, nodes: set<Bytes>)
    requires cursor <= |proof| && !Collides(H, nodes) && Elements(proof) <= nodes
    requires HashedNodes(H, below) <= nodes
    requires Follow(H, ChildOf(H, below), proof, cursor).Ok?
    ensures var s, encoded := Follow(H, ChildOf(H, below), proof, cursor).value, EncodeNode(H, below);
            && s.raw == encoded
            && (|| (s.cursor == cursor && |encoded| < 32)
                || (s.cursor == cursor + 1 && cursor < |proof| && proof[cursor] == encoded))
    ensures HashedBelow(H, below) <= nodes
  {
    if |EncodeNode(H, below)| >= 32 {
      assert proof[cursor] in Elements(proof);
      assert EncodeNode(H, below) in HashedNodes(H, below);
    }
  }

  /** The shortest proof: only hashed nodes. */
  function MinimalProof(H: Keccak, t: Trie, key: Nibbles): seq<Bytes>
    decreases t
  {
    match Entered(t, key)
    case None => []
    case Some(below) =>
      var encoded, onward := EncodeNode(H, below), key[if Used(t) <= |key| then Used(t) else |key|..];
      (if |encoded| >= 32 then [encoded] else []) + MinimalProof(H, below, onward)
  }

  lemma {:induction false} MinimalSupplies(H: Keccak, t: Trie, key: Nibbles)
    ensures Supplies(H, t, key, MinimalProof(H, t, key))
    decreases t
  {
    var entered := Entered(t, key);
    if entered.Some? {
      EnteredIsSmaller(t, key);
      var onward := key[if Used(t) <= |key| then Used(t) else |key|..];
      MinimalSupplies(H, entered.value, onward);
      var proof := MinimalProof(H, t, key);
      if |EncodeNode(H, entered.value)| >= 32 {
        assert proof[1..] == MinimalProof(H, entered.value, onward);
      } else {
        assert proof == MinimalProof(H, entered.value, onward);
      }
    }
  }
}
