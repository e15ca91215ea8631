/** Inclusion proofs of the TypeScript side: the node list a `ReceiptsTrie` emits and the verifier that
    checks it. */
module InclusionProof {
  import opened Prelude
  import opened HexPrefix
  import opened Tries
  import opened NodeCodec
  import opened LookupProof
  import opened ReceiptsTries
  import opened BuiltTries
  import Rlp
  import RlpTree

  const MAX_PROOF_NODES: nat := 128
  const MAX_PROOF_BYTES: nat := 256 * 1024

  // ----- emitting -----

  /** Every node on the path of a key, inline nodes included; none when the path leaves the trie. */
  function CollectProof(H: Keccak, t: Trie, key: Nibbles, depth: nat): Option<seq<Bytes>>
    decreases t
  {
    var encoded := EncodeNode(H, t);
    match t
    case Leaf(_, _) => Some([encoded])
    case Extension(path, child) =>
      var rest :- CollectProof(H, child, key, depth + |path|);
      Some([encoded] + rest)
    case Branch(children, _) =>
      if depth == |key| then Some([encoded])
      else if depth > |key| || key[depth] >= |children| || children[key[depth]].Vacant? then None
      else
        var rest :- CollectProof(H, children[key[depth]].node, key, depth + 1);
        Some([encoded] + rest)
  }

  /** Every node a key enters, inline nodes included. */
  function ExpandedProof(H: Keccak, t: Trie, key: Nibbles): seq<Bytes>
    decreases t
  {
    match Entered(t, key)
    case None => []
    case Some(below) =>
      [EncodeNode(H, below)] + ExpandedProof(H, below, key[if Used(t) <= |key| then Used(t) else |key|..])
  }

  lemma {:induction false} ExpandedSupplies(H: Keccak, t: Trie, key: Nibbles)
    ensures Supplies(H, t, key, ExpandedProof(H, t, key))
    decreases t
  {
    hide EncodeNode;
    if Entered(t, key).Some? {
      EnteredIsSmaller(t, key);
      var below, onward := Entered(t, key).value, key[if Used(t) <= |key| then Used(t) else |key|..];
      ExpandedSupplies(H, below, onward);
      assert ExpandedProof(H, t, key)[1..] == ExpandedProof(H, below, onward);
    }
  }

  lemma {:induction false} ExpandedLength(H: Keccak, t: Trie, key: Nibbles)
    requires WellFormed(t)
    ensures |ExpandedProof(H, t, key)| <= |key|
    decreases t
  {
    hide EncodeNode;
    if Entered(t, key).Some? {
      EnteredIsSmaller(t, key);
      assert 0 < Used(t) <= |key|;
      ExpandedLength(H, Entered(t, key).value, key[Used(t)..]);
    }
  }

  lemma ExpandedUnfold(H: Keccak, t: Trie, key: Nibbles)
    requires Lookup(t, key).Some? && WellFormed(t)
    ensures t.Leaf? ==> ExpandedProof(H, t, key) == []
    ensures t.Extension? ==>
              t.path <= key && WellFormed(t.child) && Lookup(t.child, key[|t.path|..]).Some? &&
              ExpandedProof(H, t, key) == [EncodeNode(H, t.child)] + ExpandedProof(H, t.child, key[|t.path|..])
    ensures t.Branch? && key == [] ==> ExpandedProof(H, t, key) == []
    ensures t.Branch? && key != [] ==>
              t.children[key[0]].Occupied? &&
              var below := t.children[key[0]].node;
              WellFormed(below) && Lookup(below, key[1..]).Some? &&
              ExpandedProof(H, t, key) == [EncodeNode(H, below)] + ExpandedProof(H, below, key[1..])
  {
    hide EncodeNode;
  }

  /** For a stored key the emitted list is the root followed by every node the key enters. */
  lemma {:induction false} CollectedIsExpanded(H: Keccak, t: Trie, key: Nibbles, depth: nat)
    requires WellFormed(t) && depth <= |key| && Lookup(t, key[depth..]).Some?
    ensures CollectProof(H, t, key, depth) == Some([EncodeNode(H, t)] + ExpandedProof(H, t, key[depth..]))
    decreases t
  {
    hide EncodeNode;
    hide ExpandedProof;
    hide WellFormed;
    var rest := key[depth..];
    ExpandedUnfold(H, t, rest);
    match t
    case Leaf(_, _) => assert [EncodeNode(H, t)] + [] == [EncodeNode(H, t)];
    case Extension(path, child) =>
      assert rest[|path|..] == key[depth + |path|..];
      CollectedIsExpanded(H, child, key, depth + |path|);
    case Branch(children, _) =>
      if rest == [] {
        assert [EncodeNode(H, t)] + [] == [EncodeNode(H, t)];
      } else {
        assert rest[0] == key[depth] && rest[1..] == key[depth + 1..];
        CollectedIsExpanded(H, children[rest[0]].node, key, depth + 1);
      }
  }

  // ----- verifying -----

  function TotalBytes(proof: seq<Bytes>): nat {
    if proof == [] then 0 else TotalBytes(proof[..|proof| - 1]) + |proof[|proof| - 1]|
  }

  function Concatenated(proof: seq<Bytes>): Bytes {
    if proof == [] then [] else proof[0] + Concatenated(proof[1..])
  }

  lemma {:induction false} ConcatenatedAppend(proof: seq<Bytes>, node: Bytes)
    ensures Concatenated(proof + [node]) == Concatenated(proof) + node
  {
    if proof == [] {
      assert [] + [node] == [node] && [node][1..] == [];
    } else {
      ConcatenatedAppend(proof[1..], node);
      assert (proof + [node])[1..] == proof[1..] + [node];
    }
  }

  /** The byte total is the length of all nodes put together. */
  lemma {:induction false} TotalIsLength(proof: seq<Bytes>)
    ensures TotalBytes(proof) == |Concatenated(proof)|
  {
    if proof != [] {
      var front, last := proof[..|proof| - 1], proof[|proof| - 1];
      TotalIsLength(front);
      ConcatenatedAppend(front, last);
      assert proof == front + [last];
    }
  }

  lemma {:induction false} TotalBytesGrows(proof: seq<Bytes>, i: nat)
    requires i <= |proof|
    ensures TotalBytes(proof[..i]) <= TotalBytes(proof)
  {
    if i == |proof| {
      assert proof[..i] == proof;
    } else {
      assert proof[..|proof| - 1][..i] == proof[..i];
      TotalBytesGrows(proof[..|proof| - 1], i);
    }
  }

  /** The size limits, with the early exit of the loop. */
  method ValidateProof(proof: seq<Bytes>) returns (valid: bool)
    ensures valid <==> 0 < |proof| <= MAX_PROOF_NODES && TotalBytes(proof) <= MAX_PROOF_BYTES
  {
    if |proof| == 0 || |proof| > MAX_PROOF_NODES {
      return false;
    }
    var total: nat := 0;
    for i := 0 to |proof|
      invariant total == TotalBytes(proof[..i]) <= MAX_PROOF_BYTES
    {
      assert proof[..i + 1][..i] == proof[..i];
      total := total + |proof[i]|;
      if total > MAX_PROOF_BYTES {
        TotalBytesGrows(proof, i + 1);
        return false;
      }
    }
    assert proof[..|proof|] == proof;
    return true;
  }

  /** What a parent says about its child: the child itself when inline, else its hash. */
  function ReferenceBytes(value: RlpTree.Value): Option<Bytes> {
    var encoded := RlpTree.Encode(value);
    if |encoded| < 32 then Some(encoded)
    else if value.Str? then Some(value.bytes)
    else None
  }

  /** What one decoded node says: the value, or the next expected node and the nibbles used. */
  datatype NodeStep = Final(value: Bytes) | Onward(expected: Bytes, used: nat)

  function ReadStep(node: seq<RlpTree.Value>, key: Nibbles): (r: Option<NodeStep>)
    ensures r.Some? && r.value.Onward? ==> r.value.used <= |key|
  {
    if |node| == 17 then
      if key == [] then
        if node[16].Str? && node[16].bytes != [] then Some(Final(node[16].bytes)) else None
      else
        var expected :- ReferenceBytes(node[key[0]]);
        Some(Onward(expected, 1))
    else if |node| == 2 && node[0].Str? && node[0].bytes != [] then
      var path := NibblesOf(node[0].bytes);
      var remainder := path[2 - path[0] % 2..];
      if !(remainder <= key) then None
      else if path[0] == 2 || path[0] == 3 then
        if |remainder| == |key| && node[1].Str? && node[1].bytes != [] then Some(Final(node[1].bytes)) else None
      else if path[0] == 0 || path[0] == 1 then
        var expected :- ReferenceBytes(node[1]);
        Some(Onward(expected, |remainder|))
      else None
    else None
  }

  function VerifyFromIndex(H: Keccak, key: Nibbles, proof: seq<Bytes>, index: nat, expected: Bytes): Option<Bytes>
    requires index <= |proof|
    decreases |proof| - index
  {
    if index == |proof| then None
    else
      var encoded := proof[index];
      var actual := if index == 0 || |encoded| >= 32 then H(encoded) else encoded;
      if actual != expected then None
      else
        match RlpTree.Decode(encoded)
        case Ok(List(node)) =>
          (match ReadStep(node, key)
           case None => None
           case Some(Final(value)) => if index == |proof| - 1 then Some(value) else None
           case Some(Onward(next, used)) => VerifyFromIndex(H, key[used..], proof, index + 1, next))
        case _ => None
  }

  /** The inclusion verifier; failure is the absence of a result. */
  function VerifyInclusion(H: Keccak, rawKey: Bytes, proof: seq<Bytes>, root: Hash): Option<Bytes> {
    if !(0 < |proof| <= MAX_PROOF_NODES && TotalBytes(proof) <= MAX_PROOF_BYTES) then None
    else if rawKey == [] then None
    else VerifyFromIndex(H, NibblesOf(rawKey), proof, 0, root)
  }

  /** The loop of the verifier over `expectedNode` and `keyIndex`. */
  method VerifyMerklePatriciaValue(H: Keccak, rawKey: Bytes, proof: seq<Bytes>, root: Hash)
    returns (r: Option<Bytes>)
    ensures r == VerifyInclusion(H, rawKey, proof, root)
  {
    hide ReadStep;
    hide RlpTree.Decode;
    hide NibblesOf;
    hide TotalBytes;
    var valid := ValidateProof(proof);
    if !valid || |rawKey| == 0 {
      return None;
    }
    var key := NibblesOf(rawKey);
    var expected: Bytes := root;
    var keyIndex: nat := 0;
    assert key[0..] == key;
    for index := 0 to |proof|
      invariant keyIndex <= |key|
      invariant VerifyInclusion(H, rawKey, proof, root) == VerifyFromIndex(H, key[keyIndex..], proof, index, expected)
    {
      var encoded := proof[index];
      var actual := if index == 0 || |encoded| >= 32 then H(encoded) else encoded;
      if actual != expected {
        return None;
      }
      var decoded := RlpTree.Decode(encoded);
      if decoded.Err? || decoded.value.Str? {
        return None;
      }
      var step := ReadStep(decoded.value.items, key[keyIndex..]);
      if step.None? {
        return None;
      }
      match step.value
      case Final(value) => return if index == |proof| - 1 then Some(value) else None;
      case Onward(next, used) =>
        assert key[keyIndex..][used..] == key[keyIndex + used..];
        expected, keyIndex := next, keyIndex + used;
    }
    return None;
  }

  // ----- what the verifier sees of an encoded trie -----

  function ExpectedOf(H: Keccak, t: Trie): Bytes {
    if |EncodeNode(H, t)| >= 32 then H(EncodeNode(H, t)) else EncodeNode(H, t)
  }

  lemma ReferenceOf(H: Keccak, t: Trie)
    ensures ReferenceBytes(NodeReference(H, t)) == Some(ExpectedOf(H, t))
  {
    var encoded := EncodeNode(H, t);
    if |encoded| >= 32 {
      Rlp.EncodedSize(false, H(encoded));
    }
  }

  /** At an encoded trie node the verifier follows the abstract trie: it finds a non-empty value that
      is stored here, enters the child the key enters, or stops. */
  lemma StepOfTrie(H: Keccak, t: Trie, key: Nibbles)
    requires WellFormed(t) && Addressable(H, t)
    ensures RlpTree.Decode(EncodeNode(H, t)) == Ok(NodeStructure(H, t))
    ensures var step := ReadStep(NodeStructure(H, t).items, key);
            match Entered(t, key)
            case Some(below) => step == Some(Onward(ExpectedOf(H, below), Used(t)))
            case None =>
              match Lookup(t, key)
              case Some(value) => step == if value == [] then None else Some(Final(value))
              case None => step.None? || (step.value.Onward? && step.value.expected == [0x80])
  {
    RlpTree.DecodeEncode(NodeStructure(H, t));
    hide RlpTree.Decode;
    hide RlpTree.Encode;
    match t
    case Leaf(path, value) =>
      StepOfLeaf(H, path, value, key);
      hide NodeStructure;
      hide ReadStep;
    case Extension(path, child) =>
      StepOfExtension(H, path, child, key);
      hide NodeStructure;
      hide ReadStep;
    case Branch(children, value) =>
      StepOfBranch(H, children, value, key);
      hide NodeStructure;
      hide ReadStep;
  }

  lemma StepOfLeaf(H: Keccak, path: Nibbles, value: Bytes, key: Nibbles)
    ensures ReadStep(NodeStructure(H, Leaf(path, value)).items, key) ==
            if path == key && value != [] then Some(Final(value)) else None
  {
    CompactNibbles(path, true);
    hide Compact;
    hide NibblesOf;
  }

  lemma StepOfExtension(H: Keccak, path: Nibbles, child: Trie, key: Nibbles)
    ensures ReadStep(NodeStructure(H, Extension(path, child)).items, key) ==
            if path <= key then Some(Onward(ExpectedOf(H, child), |path|)) else None
  {
    CompactNibbles(path, false);
    ReferenceOf(H, child);
    hide Compact;
    hide NibblesOf;
    hide NodeReference;
    hide ReferenceBytes;
    hide ExpectedOf;
  }

  lemma StepOfBranch(H: Keccak, children: seq<Slot>, value: Bytes, key: Nibbles)
    requires |children| == 16
    ensures var t := Branch(children, value);
            var step := ReadStep(NodeStructure(H, t).items, key);
            match Entered(t, key)
            case Some(below) => step == Some(Onward(ExpectedOf(H, below), 1))
            case None =>
              if key == [] then step == if value == [] then None else Some(Final(value))
              else step == Some(Onward([0x80], 1))
  {
    hide ExpectedOf;
    if key != [] {
      SlotStructureAt(H, children, key[0]);
      if children[key[0]].Occupied? {
        ReferenceOf(H, children[key[0]].node);
      } else {
        assert RlpTree.Encode(RlpTree.Str([])) == [0x80];
      }
    }
  }

  lemma CompactNibbles(path: Nibbles, leaf: bool)
    ensures var ns := NibblesOf(Compact(path, leaf));
            && Compact(path, leaf) != []
            && ns[0] == (if leaf then 2 else 0) + |path| % 2
            && ns[2 - ns[0] % 2..] == path
  {
    var bytes := Compact(path, leaf);
    if |path| % 2 == 1 {
      NibblesOfPack(path[1..]);
      assert bytes[1..] == Pack(path[1..]);
      assert NibblesOf(bytes)[1..] == path;
    } else {
      NibblesOfPack(path);
      assert bytes[1..] == Pack(path);
      assert NibblesOf(bytes)[2..] == path;
    }
  }

  // ----- completeness -----

  /** The emitted proof of a stored non-empty value verifies to that value, exactly when it is within
      the size limits. */
  lemma InclusionComplete(H: Keccak, t: Trie, rawKey: Bytes, value: Bytes)
    requires WellFormed(t) && Addressable(H, t) && rawKey != []
    requires Lookup(t, NibblesOf(rawKey)) == Some(value) && value != []
    ensures CollectProof(H, t, NibblesOf(rawKey), 0).Some?
    ensures var proof := CollectProof(H, t, NibblesOf(rawKey), 0).value;
            VerifyInclusion(H, rawKey, proof, RootHash(H, t)) ==
            if |proof| <= MAX_PROOF_NODES && TotalBytes(proof) <= MAX_PROOF_BYTES then Some(value) else None
  {
    hide EncodeNode;
    hide ExpandedProof;
    hide CollectProof;
    hide WellFormed;
    hide Addressable;
    hide Lookup;
    hide NibblesOf;
    hide VerifyFromIndex;
    hide TotalBytes;
    var key := NibblesOf(rawKey);
    assert key[0..] == key;
    CollectedIsExpanded(H, t, key, 0);
    ExpandedVerifies(H, t, key, [], RootHash(H, t), value);
    assert [] + [EncodeNode(H, t)] + ExpandedProof(H, t, key) == CollectProof(H, t, key, 0).value;
  }

  /** Verification from a node of the path on. */
  lemma {:induction false} ExpandedVerifies(
      H: Keccak, t: Trie, key: Nibbles, before: seq<Bytes>, expected: Bytes, value: Bytes)
    requires WellFormed(t) && Addressable(H, t)
    requires Lookup(t, key) == Some(value) && value != []
    requires expected == if before == [] then RootHash(H, t) else ExpectedOf(H, t)
    ensures VerifyFromIndex(H, key, before + [EncodeNode(H, t)] + ExpandedProof(H, t, key), |before|, expected)
            == Some(value)
    decreases |key|
  {
    hide EncodeNode;
    hide Lookup;
    hide WellFormed;
    hide Addressable;
    hide ReadNode;
    var proof := before + [EncodeNode(H, t)] + ExpandedProof(H, t, key);
    VerifyAtNode(H, t, key, proof, |before|, expected);
    MoveOfTrie(H, t, key);
    ExpandedStep(H, t, key, before);
    hide *;
    if Entered(t, key).Some? {
      var below, onward := Entered(t, key).value, key[Used(t)..];
      ExpandedVerifies(H, below, onward, before + [EncodeNode(H, t)], ExpectedOf(H, below), value);
    }
  }

  lemma ExpandedStep(H: Keccak, t: Trie, key: Nibbles, before: seq<Bytes>)
    requires WellFormed(t)
    ensures var proof := before + [EncodeNode(H, t)] + ExpandedProof(H, t, key);
            match Entered(t, key)
            case None => |proof| == |before| + 1
            case Some(below) =>
              0 < Used(t) <= |key| &&
              proof == (before + [EncodeNode(H, t)]) + [EncodeNode(H, below)] + ExpandedProof(H, below, key[Used(t)..])
  {
    hide EncodeNode;
    EnteredUses(t, key);
    hide Entered;
    hide Used;
    hide WellFormed;
    if Entered(t, key).Some? {
      var node, below, rest := EncodeNode(H, t), Entered(t, key).value, ExpandedProof(H, Entered(t, key).value, key[Used(t)..]);
      assert ExpandedProof(H, t, key) == [EncodeNode(H, below)] + rest;
      hide ExpandedProof;
      Rebracketed(before + [node], [EncodeNode(H, below)], rest);
    }
  }

  lemma EnteredUses(t: Trie, key: Nibbles)
    requires WellFormed(t)
    ensures Entered(t, key).Some? ==> 0 < Used(t) <= |key|
  {
  }

  lemma Rebracketed(a: seq<Bytes>, b: seq<Bytes>, c: seq<Bytes>)
    ensures a + (b + c) == a + b + c
  {
  }

  /** One round of the verifier on a node it expects. */
  lemma VerifyStep(
      H: Keccak, key: Nibbles, proof: seq<Bytes>, index: nat, expected: Bytes, items: seq<RlpTree.Value>)
    requires index < |proof| && RlpTree.Decode(proof[index]) == Ok(RlpTree.List(items))
    requires expected == if index == 0 || |proof[index]| >= 32 then H(proof[index]) else proof[index]
    ensures VerifyFromIndex(H, key, proof, index, expected) ==
            match ReadStep(items, key)
            case None => None
            case Some(Final(value)) => if index == |proof| - 1 then Some(value) else None
            case Some(Onward(next, used)) => VerifyFromIndex(H, key[used..], proof, index + 1, next)
  {
    hide RlpTree.Decode;
    hide ReadStep;
  }

  /** The verifier at the encoding of a trie node. */
  lemma VerifyAtNode(H: Keccak, t: Trie, key: Nibbles, proof: seq<Bytes>, index: nat, expected: Bytes)
    requires WellFormed(t) && Addressable(H, t) && index < |proof| && proof[index] == EncodeNode(H, t)
    requires expected == if index == 0 then RootHash(H, t) else ExpectedOf(H, t)
    ensures var r := VerifyFromIndex(H, key, proof, index, expected);
            match Entered(t, key)
            case Some(below) =>
              Used(t) <= |key| && r == VerifyFromIndex(H, key[Used(t)..], proof, index + 1, ExpectedOf(H, below))
            case None =>
              match Lookup(t, key)
              case Some(value) => r == if value == [] || index != |proof| - 1 then None else Some(value)
              case None => r == None
  {
    hide VerifyFromIndex;
    hide EncodeNode;
    hide Lookup;
    hide WellFormed;
    hide Addressable;
    hide ReadNode;
    hide ReadStep;
    hide RlpTree.Decode;
    hide Entered;
    hide Used;
    StepOfTrie(H, t, key);
    MoveOfTrie(H, t, key);
    VerifyStep(H, key, proof, index, expected, NodeStructure(H, t).items);
    hide NodeStructure;
    hide ExpectedOf;
    var step := ReadStep(NodeStructure(H, t).items, key);
    if Entered(t, key).None? && Lookup(t, key).None? && step.Some? {
      VacantStops(H, key[step.value.used..], proof, index + 1);
    }
  }

  /** A vacant slot is never a node: verification cannot go on from it. */
  lemma VacantStops(H: Keccak, key: Nibbles, proof: seq<Bytes>, index: nat)
    requires 0 < index <= |proof|
    ensures VerifyFromIndex(H, key, proof, index, [0x80]).None?
  {
    assert Rlp.Prefix([0x80]) == Ok(Rlp.Span(1, 0, false));
    assert RlpTree.Decode([0x80]).Ok? ==> RlpTree.Decode([0x80]).value.Str?;
    assert index < |proof| && |proof[index]| >= 32 ==> |H(proof[index])| == 32;
  }

  // ----- soundness -----

  /** Only the node itself, or a colliding one, meets the expectation for a node. */
  lemma ExpectationBinds(H: Keccak, t: Trie, encoded: Bytes, first: bool, nodes: set<Bytes>)
    requires !Collides(H, nodes) && encoded in nodes
    requires first || |EncodeNode(H, t)| >= 32 ==> EncodeNode(H, t) in nodes
    requires (if first || |encoded| >= 32 then H(encoded) else encoded) ==
             (if first then RootHash(H, t) else ExpectedOf(H, t))
    ensures encoded == EncodeNode(H, t)
  {
    assert |H(encoded)| == 32 && |H(EncodeNode(H, t))| == 32;
  }

  /** A verified value is the stored value, unless a proof node and a node of the trie collide. */
  lemma InclusionSound(H: Keccak, t: Trie, rawKey: Bytes, proof: seq<Bytes>)
    requires WellFormed(t) && Addressable(H, t)
    requires VerifyInclusion(H, rawKey, proof, RootHash(H, t)).Some?
    ensures Lookup(t, NibblesOf(rawKey)) == VerifyInclusion(H, rawKey, proof, RootHash(H, t))
            || Collides(H, Elements(proof) + Corpus(H, t))
  {
    var nodes := Elements(proof) + Corpus(H, t);
    if !Collides(H, nodes) {
      SoundFrom(H, t, NibblesOf(rawKey), proof, 0, RootHash(H, t), nodes);
    }
  }

  lemma HashedInclusive(H: Keccak, t: Trie)
    ensures HashedBelow(H, t) <= HashedNodes(H, t)
    ensures |EncodeNode(H, t)| >= 32 ==> EncodeNode(H, t) in HashedNodes(H, t)
  {
  }

  lemma {:induction false} SoundFrom(
      H: Keccak, t: Trie, key: Nibbles, proof: seq<Bytes>, index: nat, expected: Bytes, nodes: set<Bytes>)
    requires WellFormed(t) && Addressable(H, t) && index <= |proof|
    requires !Collides(H, nodes) && Elements(proof) <= nodes && HashedBelow(H, t) <= nodes
    requires index == 0 || |EncodeNode(H, t)| >= 32 ==> EncodeNode(H, t) in nodes
    requires expected == if index == 0 then RootHash(H, t) else ExpectedOf(H, t)
    requires VerifyFromIndex(H, key, proof, index, expected).Some?
    ensures VerifyFromIndex(H, key, proof, index, expected) == Lookup(t, key)
    decreases |proof| - index
  {
    hide *;
    SoundNode(H, t, key, proof, index, expected, nodes);
    if Entered(t, key).Some? {
      SoundFrom(H, Entered(t, key).value, key[Used(t)..], proof, index + 1,
                ExpectedOf(H, Entered(t, key).value), nodes);
    }
  }

  /** One node of a verified proof: it is the expected trie node, and verification continues with the
      child the key enters. */
  lemma SoundNode(
      H: Keccak, t: Trie, key: Nibbles, proof: seq<Bytes>, index: nat, expected: Bytes, nodes: set<Bytes>)
    requires WellFormed(t) && Addressable(H, t) && index <= |proof|
    requires !Collides(H, nodes) && Elements(proof) <= nodes && HashedBelow(H, t) <= nodes
    requires index == 0 || |EncodeNode(H, t)| >= 32 ==> EncodeNode(H, t) in nodes
    requires expected == if index == 0 then RootHash(H, t) else ExpectedOf(H, t)
    requires VerifyFromIndex(H, key, proof, index, expected).Some?
    ensures index < |proof|
    ensures var r := VerifyFromIndex(H, key, proof, index, expected);
            match Entered(t, key)
            case None => r == Lookup(t, key)
            case Some(below) =>
              && Used(t) <= |key| && Lookup(t, key) == Lookup(below, key[Used(t)..])
              && r == VerifyFromIndex(H, key[Used(t)..], proof, index + 1, ExpectedOf(H, below))
              && WellFormed(below) && Addressable(H, below) && HashedBelow(H, below) <= nodes
              && (|EncodeNode(H, below)| >= 32 ==> EncodeNode(H, below) in nodes)
  {
    assert proof[index] in Elements(proof);
    ExpectationBinds(H, t, proof[index], index == 0, nodes);
    VerifyAtNode(H, t, key, proof, index, expected);
    MoveOfTrie(H, t, key);
    hide *;
    if Entered(t, key).Some? {
      HashedInclusive(H, Entered(t, key).value);
    }
  }

  /** Nothing is verified but a non-empty value under a non-empty key, by a proof within the limits. */
  lemma VerifiedIsProper(H: Keccak, rawKey: Bytes, proof: seq<Bytes>, root: Hash)
    requires VerifyInclusion(H, rawKey, proof, root).Some?
    ensures VerifyInclusion(H, rawKey, proof, root).value != [] && rawKey != []
    ensures 0 < |proof| <= 128 && |Concatenated(proof)| <= 0x4_0000
  {
    hide VerifyFromIndex;
    hide NibblesOf;
    hide Concatenated;
    hide TotalBytes;
    TotalIsLength(proof);
    ProperFrom(H, NibblesOf(rawKey), proof, 0, root);
  }

  lemma {:induction false} ProperFrom(H: Keccak, key: Nibbles, proof: seq<Bytes>, index: nat, expected: Bytes)
    requires index <= |proof|
    ensures VerifyFromIndex(H, key, proof, index, expected) != Some([])
    decreases |proof| - index
  {
    hide RlpTree.Decode;
    hide NibblesOf;
    hide ReferenceBytes;
    if index < |proof| {
      var decoded := RlpTree.Decode(proof[index]);
      if decoded.Ok? && decoded.value.List? {
        var step := ReadStep(decoded.value.items, key);
        NeverEmpty(decoded.value.items, key);
        hide ReadStep;
        if step.Some? && step.value.Onward? {
          ProperFrom(H, key[step.value.used..], proof, index + 1, step.value.expected);
        }
      }
    }
  }

  lemma NeverEmpty(node: seq<RlpTree.Value>, key: Nibbles)
    ensures ReadStep(node, key) != Some(Final([]))
  {
    hide NibblesOf;
    hide ReferenceBytes;
  }

  /** Verification leaves no choice: two node lists accepted for one key and root are the same list, or
      two of their nodes collide. */
  lemma InclusionBinding(H: Keccak, rawKey: Bytes, p: seq<Bytes>, q: seq<Bytes>, root: Hash)
    requires VerifyInclusion(H, rawKey, p, root).Some? && VerifyInclusion(H, rawKey, q, root).Some?
    ensures p == q || Collides(H, Elements(p) + Elements(q))
  {
    if !Collides(H, Elements(p) + Elements(q)) {
      SameFrom(H, NibblesOf(rawKey), p, q, 0, root);
    }
  }

  lemma {:induction false} SameFrom(
      H: Keccak, key: Nibbles, p: seq<Bytes>, q: seq<Bytes>, index: nat, expected: Bytes)
    requires index <= |p| && index <= |q| && p[..index] == q[..index]
    requires !Collides(H, Elements(p) + Elements(q))
    requires VerifyFromIndex(H, key, p, index, expected).Some? && VerifyFromIndex(H, key, q, index, expected).Some?
    ensures p == q
    decreases |p| - index
  {
    hide ReadStep;
    hide RlpTree.Decode;
    SameNode(H, p, q, index, expected);
    assert p[..index + 1] == q[..index + 1];
    var step := ReadStep(RlpTree.Decode(p[index]).value.items, key).value;
    if step.Onward? {
      SameFrom(H, key[step.used..], p, q, index + 1, step.expected);
    } else {
      assert p == p[..index + 1] && q == q[..index + 1];
    }
  }

  lemma SameNode(H: Keccak, p: seq<Bytes>, q: seq<Bytes>, index: nat, expected: Bytes)
    requires index < |p| && index < |q| && !Collides(H, Elements(p) + Elements(q))
    requires expected == if index == 0 || |p[index]| >= 32 then H(p[index]) else p[index]
    requires expected == if index == 0 || |q[index]| >= 32 then H(q[index]) else q[index]
    ensures p[index] == q[index]
  {
    var nodes := Elements(p) + Elements(q);
    assert p[index] in nodes && q[index] in nodes;
    assert |H(p[index])| == 32 && |H(q[index])| == 32;
  }

  // ----- receipts -----

  /** Every receipt of a `ReceiptsTrie` verifies under its index to its own bytes exactly when its proof
      is within the limits, and for 64-bit indices the node limit is never reached. The Rust verifier
      accepts the same node list with the same answer. */
  lemma ReceiptProofComplete(H: Keccak, receipts: seq<IndexedReceipt>, i: nat)
    requires Indexable(receipts) && DistinctIndices(receipts) && i < |receipts|
    requires forall j :: 0 <= j < |receipts| ==> 0 < |receipts[j].value| < SMALL
    ensures var t, key := TrieOf(receipts), TrieKey(receipts[i].index);
            var collected := CollectProof(H, t, NibblesOf(key), 0);
            && collected.Some?
            && |collected.value| <= 2 * |key| + 1
            && (receipts[i].index < U64_LIMIT ==> |collected.value| <= 19)
            && VerifyInclusion(H, key, collected.value, RootHash(H, t)) ==
               (if |collected.value| <= MAX_PROOF_NODES && TotalBytes(collected.value) <= MAX_PROOF_BYTES
                then Some(receipts[i].value) else None)
            && (RootHash(H, t) != EmptyRoot(H) ==>
                  VerifyRaw(H, RootHash(H, t), key, collected.value) == Ok(Present(receipts[i].value)))
  {
    var t, key := TrieOf(receipts), TrieKey(receipts[i].index);
    var ns := NibblesOf(key);
    assert EntriesOf(receipts)[i] == Entry(ns, receipts[i].value);
    TrieContent(receipts, ns, receipts[i].value);
    ReceiptsTrieSmall(receipts);
    SmallAddressable(H, t);
    TrieKeySize(receipts[i].index);
    if receipts[i].index < U64_LIMIT {
      TrieKeyIsReceiptKey(receipts[i].index);
    }
    hide TrieOf;
    hide TrieKey;
    InclusionComplete(H, t, key, receipts[i].value);
    assert ns[0..] == ns;
    CollectedIsExpanded(H, t, ns, 0);
    ExpandedLength(H, t, ns);
    ExpandedSupplies(H, t, ns);
    if RootHash(H, t) != EmptyRoot(H) {
      SuppliedProofAccepted(H, t, key, ExpandedProof(H, t, ns));
    }
  }
}
