/** What happens to an accepted lookup proof when nodes are added, cut off, left out or altered. */
module ProofChanges {
  import opened Prelude
  import opened NodeCodec
  import opened LookupProof
  import RlpTree

  // ----- added and missing nodes -----

  /** Nodes added at the end of an accepted proof are refused as trailing, except repeated inline nodes. */
  lemma ExtraNodes(H: Keccak, root: Hash, rawKey: Bytes, proof: seq<Bytes>, extra: seq<Bytes>)
    requires VerifyRaw(H, root, rawKey, proof).Ok?
    ensures var r := VerifyRaw(H, root, rawKey, proof + extra);
            r == Err(TrailingProofNodes) || r == VerifyRaw(H, root, rawKey, proof)
  {
    if root != EmptyRoot(H) {
      assert (proof + extra)[0] == proof[0];
      ExtraFrom(H, proof[0], NibblesOf(rawKey), proof, 1, proof + extra, 1);
    }
  }

  /** Whatever another proof with the same beginning holds past the end of an accepted one, no hash in it
      is asked for. */
  lemma {:induction false} ExtraFrom(
      H: Keccak, encoded: Bytes, key: Nibbles, p: seq<Bytes>, i: nat, q: seq<Bytes>, j: nat)
    requires i <= |p| && j <= |q| && ((i == j && p <= q) || i == |p|)
    requires VerifyFrom(H, encoded, key, p, i).Ok?
    ensures var r := VerifyFrom(H, encoded, key, q, j);
            r == Err(TrailingProofNodes) || r == VerifyFrom(H, encoded, key, p, i)
    decreases |key|
  {
    hide ReadNode;
    var m := NextMove(ReadNode(encoded).value, key);
    if m.Descend? {
      var s := Follow(H, m.child, p, i).value;
      var u := Follow(H, m.child, q, j);
      assert i < |p| ==> p[i] == q[j];
      assert u.Ok? && u.value.raw == s.raw;
      ExtraFrom(H, s.raw, key[m.used..], p, s.cursor, q, u.value.cursor);
    }
  }

  /** An accepted proof cut short is incomplete, unless only inline nodes are missing. */
  lemma CutProof(H: Keccak, root: Hash, rawKey: Bytes, proof: seq<Bytes>, k: nat)
    requires VerifyRaw(H, root, rawKey, proof).Ok? && k <= |proof|
    ensures var r := VerifyRaw(H, root, rawKey, proof[..k]);
            r == Err(IncompleteProof) || r == VerifyRaw(H, root, rawKey, proof)
  {
    if root == EmptyRoot(H) {
      assert proof[..k] == [] || proof[..k] == proof;
    } else if k > 0 {
      assert proof[..k][0] == proof[0];
      CutFrom(H, proof[0], NibblesOf(rawKey), proof, 1, proof[..k], 1);
    }
  }

  lemma {:induction false} CutFrom(
      H: Keccak, encoded: Bytes, key: Nibbles, p: seq<Bytes>, i: nat, q: seq<Bytes>, j: nat)
    requires i <= |p| && j <= |q| && q <= p && (i == j || j == |q|)
    requires VerifyFrom(H, encoded, key, p, i).Ok?
    ensures var r := VerifyFrom(H, encoded, key, q, j);
            r == Err(IncompleteProof) || r == VerifyFrom(H, encoded, key, p, i)
    decreases |key|
  {
    hide ReadNode;
    var m := NextMove(ReadNode(encoded).value, key);
    if m.Descend? {
      var s := Follow(H, m.child, p, i).value;
      var u := Follow(H, m.child, q, j);
      if u.Ok? {
        CutFrom(H, s.raw, key[m.used..], p, s.cursor, q, u.value.cursor);
      }
    }
  }

  // ----- inline nodes -----

  /** The nodes that are referenced by hash. */
  function LongNodes(proof: seq<Bytes>): seq<Bytes> {
    if proof == [] then []
    else (if |proof[0]| >= 32 then [proof[0]] else []) + LongNodes(proof[1..])
  }

  /** Inline nodes may always be left out: the root and the nodes of 32 bytes and more prove the same. In
      particular no node shorter than that is ever accepted for a hash. */
  lemma OmitInline(H: Keccak, root: Hash, rawKey: Bytes, proof: seq<Bytes>)
    requires VerifyRaw(H, root, rawKey, proof).Ok? && root != EmptyRoot(H)
    ensures proof != []
    ensures VerifyRaw(H, root, rawKey, [proof[0]] + LongNodes(proof[1..])) == VerifyRaw(H, root, rawKey, proof)
  {
    var q := [proof[0]] + LongNodes(proof[1..]);
    assert q[1..] == LongNodes(proof[1..]);
    OmitFrom(H, proof[0], NibblesOf(rawKey), proof, 1, q, 1);
  }

  lemma {:induction false} OmitFrom(
      H: Keccak, encoded: Bytes, key: Nibbles, p: seq<Bytes>, i: nat, q: seq<Bytes>, j: nat)
    requires i <= |p| && j <= |q| && q[j..] == LongNodes(p[i..])
    requires VerifyFrom(H, encoded, key, p, i).Ok?
    ensures VerifyFrom(H, encoded, key, q, j) == VerifyFrom(H, encoded, key, p, i)
    decreases |key|
  {
    ReadNodeSound(encoded);
    var node := ReadNode(encoded).value;
    hide ReadNode;
    var m := NextMove(node, key);
    if m.Descend? {
      var s := Follow(H, m.child, p, i).value;
      NextIsValid(node, key);
      OmitStep(H, m.child, p, i, q, j);
      OmitFrom(H, s.raw, key[m.used..], p, s.cursor, q, Follow(H, m.child, q, j).value.cursor);
    } else {
      assert p[i..] == [];
    }
  }

  lemma NextIsValid(node: Node, key: Nibbles)
    requires ValidNode(node)
    requires node.LeafNode? || node.ExtensionNode? ==> node.path.Valid()
    requires node.ExtensionNode? ==> node.path.len > 0
    ensures NextMove(node, key).Descend? ==> ValidChild(NextMove(node, key).child)
  {
    hide ReadNode;
  }

  lemma OmitStep(H: Keccak, child: Child, p: seq<Bytes>, i: nat, q: seq<Bytes>, j: nat)
    requires i <= |p| && j <= |q| && q[j..] == LongNodes(p[i..])
    requires ValidChild(child) && Follow(H, child, p, i).Ok?
    ensures var s, u := Follow(H, child, p, i), Follow(H, child, q, j);
            u.Ok? && u.value.raw == s.value.raw && q[u.value.cursor..] == LongNodes(p[s.value.cursor..])
  {
    hide ReadNode;
    LongAreLong(p[i..]);
    if i < |p| {
      assert p[i..][0] == p[i] && p[i..][1..] == p[i + 1..];
      if |p[i]| >= 32 {
        assert q[j..][0] == q[j] && q[j..][1..] == q[j + 1..];
      }
    }
    if j < |q| {
      assert q[j..][0] == q[j];
    }
  }

  lemma {:induction false} LongAreLong(proof: seq<Bytes>)
    ensures forall k :: 0 <= k < |LongNodes(proof)| ==> |LongNodes(proof)[k]| >= 32
  {
    if proof != [] {
      LongAreLong(proof[1..]);
    }
  }

  // ----- altered nodes -----

  /** Replacing the root or a node of 32 bytes and more by any such node with another hash is noticed as
      a hash mismatch. */
  lemma AlteredNode(H: Keccak, root: Hash, rawKey: Bytes, proof: seq<Bytes>, i: nat, altered: Bytes)
    requires VerifyRaw(H, root, rawKey, proof).Ok? && root != EmptyRoot(H)
    requires i < |proof| && H(altered) != H(proof[i])
    requires i > 0 ==> |proof[i]| >= 32 && |altered| >= 32
    ensures VerifyRaw(H, root, rawKey, proof[i := altered]) == Err(HashMismatch)
  {
    if i > 0 {
      AlteredFrom(H, proof[0], NibblesOf(rawKey), proof, 1, i, altered);
    }
  }

  lemma {:induction false} AlteredFrom(
      H: Keccak, encoded: Bytes, key: Nibbles, p: seq<Bytes>, cursor: nat, i: nat, altered: Bytes)
    requires cursor <= i < |p| && |p[i]| >= 32 && |altered| >= 32 && H(altered) != H(p[i])
    requires VerifyFrom(H, encoded, key, p, cursor).Ok?
    ensures VerifyFrom(H, encoded, key, p[i := altered], cursor) == Err(HashMismatch)
    decreases |key|
  {
    ReadNodeSound(encoded);
    var node := ReadNode(encoded).value;
    hide ReadNode;
    var m := NextMove(node, key);
    NextIsValid(node, key);
    assert m.Descend?;
    if !(m.child.HashChild? && cursor == i) {
      var s := Follow(H, m.child, p, cursor).value;
      assert Follow(H, m.child, p[i := altered], cursor) == Ok(s);
      AlteredFrom(H, s.raw, key[m.used..], p, s.cursor, i, altered);
    }
  }

  // ----- the empty trie -----

  /** The root of the empty trie is the hash of the encoded empty string; every key is absent under it,
      and the proof is empty or that string. */
  lemma EmptyTrieProofs(H: Keccak, rawKey: Bytes, proof: seq<Bytes>)
    ensures EmptyRoot(H) == H(RlpTree.Encode(RlpTree.Str([])))
    ensures VerifyRaw(H, EmptyRoot(H), rawKey, proof) ==
            if proof == [] || proof == [RlpTree.Encode(RlpTree.Str([]))] then Ok(Absent) else Err(TrailingProofNodes)
  {
    assert RlpTree.Encode(RlpTree.Str([])) == [0x80] + [] == [0x80];
  }
}
