/** The exhaustive receipt-trie walker: the witness store, the index bookkeeping and the traversal. */
module ReceiptWalk {
  import opened Prelude
  import opened HexPrefix
  import opened Tries
  import opened NodeCodec
  import opened Unfolding
  import opened LookupProof
  import opened ReceiptKeys
  import opened WalkSpec

  datatype WalkError<+E> =
    | TrieError(trie: Error)
    | BadIndex(index: IndexError)
    | NonIncreasingKeys
    | NonDenseIndices
    | CountOverflow
    | DuplicateWitnessNode
    | UnusedWitnessNode
    | NonCanonicalEmptyTrie
    | NextIndexPresent
    | Callback(error: E)
  {
    /** The two checks that never fail. */
    predicate Expected() {
      !NonIncreasingKeys? && !NextIndexPresent?
    }
  }

  // ----- the witness store -----

  datatype StoredNode = StoredNode(bytes: Bytes, used: bool)

  class WitnessStore {
    var nodes: map<Hash, StoredNode>

    constructor (nodes: map<Hash, StoredNode>)
      ensures this.nodes == nodes
    {
      this.nodes := nodes;
    }

    ghost function Content(): (store: Store)
      reads this
    {
      map h | h in nodes :: nodes[h].bytes
    }

    ghost function UsedKeys(): set<Hash>
      reads this
    {
      set h | h in nodes && nodes[h].used
    }

    /** The bytes under a hash. Only the root node may be short. Marks the node used. */
    method Hashed(hash: Hash, root: bool) returns (r: Result<Bytes, Error>)
      modifies this
      ensures Content() == old(Content())
      ensures !root ==> r == Resolve(old(Content()), HashChild(hash))
      ensures root ==> r == if hash in old(Content()) then Ok(old(Content())[hash]) else Err(IncompleteProof)
      ensures UsedKeys() == old(UsedKeys()) + if r.Ok? then {hash} else {}
    {
      if hash !in nodes {
        return Err(IncompleteProof);
      }
      var entry := nodes[hash];
      if !root && |entry.bytes| < 32 {
        return Err(NonCanonicalChildReference);
      }
      nodes := nodes[hash := entry.(used := true)];
      r := Ok(entry.bytes);
      assert Content() == old(Content());
    }

    method ChildBytes(child: Child) returns (r: Result<Bytes, Error>)
      modifies this
      ensures Content() == old(Content())
      ensures r == Resolve(old(Content()), child)
      ensures UsedKeys() == old(UsedKeys()) + if r.Ok? then OwnRef(child) else {}
    {
      match child
      case NoChild => r := Err(InvalidChildReference);
      case EmbeddedChild(raw) => r := Ok(raw);
      case HashChild(hash) => r := Hashed(hash, false);
    }

    method AllUsed() returns (all: bool)
      ensures all <==> UsedKeys() == Content().Keys
    {
      all := forall h :: h in nodes ==> nodes[h].used;
      if !all {
        var h :| h in nodes && !nodes[h].used;
        assert h in Content().Keys && h !in UsedKeys();
      }
    }

    /** The minimal ordered proof of a key, extracted from the store. */
    method PathProof(root: Hash, key: Bytes) returns (r: Result<seq<Bytes>, Error>)
      modifies this
      ensures Content() == old(Content())
      ensures root !in old(Content()) ==> r == Err(IncompleteProof)
      ensures root in old(Content()) ==>
                var below := PathNodes(old(Content()), old(Content())[root], NibblesOf(key));
                r == if below.Err? then Err(below.error) else Ok([old(Content())[root]] + below.value)
    {
      var raw :- Hashed(root, true);
      var below :- PathBelow(raw, key);
      r := Ok([raw] + below);
    }

    /** The loop of `PathProof`, after the root. */
    method PathBelow(first: Bytes, key: Bytes) returns (r: Result<seq<Bytes>, Error>)
      modifies this
      ensures Content() == old(Content())
      ensures r == PathNodes(old(Content()), first, NibblesOf(key))
    {
      hide ReadNode;
      hide NibblesOf;
      hide Resolve;
      hide NextMove;
      hide OwnRef;
      ghost var content, ns := Content(), NibblesOf(key);
      var raw := first;
      var proof: seq<Bytes> := [];
      var position := 0;
      PrependNone(PathNodes(content, raw, ns));
      assert ns[0..] == ns;
      hide PathNodes;
      hide PrependNodes;
      while true
        invariant 0 <= position <= |ns| && Content() == content
        invariant PathNodes(content, first, ns) == PrependNodes(proof, PathNodes(content, raw, ns[position..]))
        decreases |ns| - position
      {
        PathNodesStop(content, raw, ns[position..], proof);
        var node :- ParseNode(raw);
        var move := TakeMove(node, key, position);
        if move.Answered? {
          return Ok(proof);
        }
        PathNodesStep(content, raw, ns, position, move, proof);
        var next := ChildBytes(move.child);
        if next.Err? {
          return Err(next.error);
        }
        position := position + move.used;
        raw := next.value;
        if move.child.HashChild? {
          proof := proof + [raw];
        }
      }
    }
  }

  /** Where extraction stops: at an unreadable node, or with the answer. */
  lemma PathNodesStop(store: Store, raw: Bytes, key: Nibbles, proof: seq<Bytes>)
    ensures var whole := PrependNodes(proof, PathNodes(store, raw, key));
            match ReadNode(raw)
            case Err(e) => whole == Err(e)
            case Ok(node) => NextMove(node, key).Answered? ==> whole == Ok(proof)
  {
    assert proof + [] == proof;
  }

  lemma PathNodesStep(
      store: Store, raw: Bytes, ns: Nibbles, position: nat, move: Move, proof: seq<Bytes>)
    requires position <= |ns| && ReadNode(raw).Ok? && move == NextMove(ReadNode(raw).value, ns[position..])
    requires move.Descend?
    ensures var whole := PrependNodes(proof, PathNodes(store, raw, ns[position..]));
            match Resolve(store, move.child)
            case Err(e) => whole == Err(e)
            case Ok(next) =>
              whole == PrependNodes(if move.child.HashChild? then proof + [next] else proof,
                                    PathNodes(store, next, ns[position + move.used..]))
  {
    assert ns[position..][move.used..] == ns[position + move.used..];
    var next := Resolve(store, move.child);
    if next.Ok? {
      PrependMore(proof, next.value, PathNodes(store, next.value, ns[position + move.used..]));
    }
  }

  /** The hashed nodes met on the path of a key, below an already resolved node. */
  function PathNodes(store: Store, raw: Bytes, key: Nibbles): Result<seq<Bytes>, Error>
    decreases |key|
  {
    var node :- ReadNode(raw);
    match NextMove(node, key)
    case Answered(_) => Ok([])
    case Descend(child, used) =>
      var next :- Resolve(store, child);
      var rest :- PathNodes(store, next, key[used..]);
      Ok((if child.HashChild? then [next] else []) + rest)
  }

  function PrependNodes(proof: seq<Bytes>, rest: Result<seq<Bytes>, Error>): Result<seq<Bytes>, Error> {
    if rest.Err? then rest else Ok(proof + rest.value)
  }

  lemma PrependNone(rest: Result<seq<Bytes>, Error>)
    ensures PrependNodes([], rest) == rest
  {
    assert rest.Ok? ==> [] + rest.value == rest.value;
  }

  lemma PrependMore(proof: seq<Bytes>, raw: Bytes, rest: Result<seq<Bytes>, Error>)
    ensures PrependNodes(proof, PrependNodes([raw], rest)) == PrependNodes(proof + [raw], rest)
    ensures PrependNodes(proof, PrependNodes([], rest)) == PrependNodes(proof, rest)
  {
    if rest.Ok? {
      assert proof + ([raw] + rest.value) == proof + [raw] + rest.value;
      assert [] + rest.value == rest.value;
    }
  }

  /** On a resolved trie extraction never fails and yields the minimal proof. */
  lemma {:induction false} PathNodesMinimal(H: Keccak, store: Store, t: Trie, cap: nat, key: Nibbles)
    requires Resolved(H, store, t, cap)
    ensures PathNodes(store, EncodeNode(H, t), key) == Ok(MinimalProof(H, t, key))
    decreases t
  {
    MoveOfTrie(H, t, key);
    if Entered(t, key).Some? {
      EnteredIsSmaller(t, key);
      EnteredResolved(H, store, t, cap, key);
      var below := Entered(t, key).value;
      PathNodesMinimal(H, store, below, cap - Used(t), key[Used(t)..]);
    }
  }

  lemma EnteredResolved(H: Keccak, store: Store, t: Trie, cap: nat, key: Nibbles)
    requires Resolved(H, store, t, cap) && Entered(t, key).Some?
    ensures var below := Entered(t, key).value;
            && Used(t) <= cap && Resolved(H, store, below, cap - Used(t))
            && Resolve(store, ChildOf(H, below)) == Ok(EncodeNode(H, below))
  {
    MoveOfTrie(H, t, key);
    var below := Entered(t, key).value;
    assert Stored(H, store, HashedNodes(H, below));
    StoredBelow(H, store, below);
    if |EncodeNode(H, below)| >= 32 {
      assert EncodeNode(H, below) in HashedNodes(H, below);
    }
  }

  ghost predicate DistinctHashes(H: Keccak, nodes: seq<Bytes>) {
    forall i, j :: 0 <= i < j < |nodes| ==> H(nodes[i]) != H(nodes[j])
  }

  /** Builds the store; two nodes with one hash are refused. */
  method NewStore<E>(H: Keccak, nodes: seq<Bytes>) returns (r: Result<WitnessStore, WalkError<E>>)
    ensures r.Ok? <==> DistinctHashes(H, nodes)
    ensures r.Err? ==> r.error == DuplicateWitnessNode
    ensures r.Ok? ==> fresh(r.value) && r.value.UsedKeys() == {}
    ensures r.Ok? ==> Consistent(H, r.value.Content()) && Stored(H, r.value.Content(), Elements(nodes))
    ensures r.Ok? ==> r.value.Content().Keys == Hashes(H, Elements(nodes))
  {
    var out: map<Hash, StoredNode> := map[];
    for i := 0 to |nodes|
      invariant DistinctHashes(H, nodes[..i])
      invariant forall j :: 0 <= j < i ==> H(nodes[j]) in out && out[H(nodes[j])] == StoredNode(nodes[j], false)
      invariant forall h :: h in out ==> exists j :: 0 <= j < i && H(nodes[j]) == h
    {
      var bytes := nodes[i];
      var hash := H(bytes);
      if hash in out {
        var j :| 0 <= j < i && H(nodes[j]) == hash;
        return Err(DuplicateWitnessNode);
      }
      out := out[hash := StoredNode(bytes, false)];
    }
    assert nodes[..|nodes|] == nodes;
    FilledStore(H, nodes, out);
    var store := new WitnessStore(out);
    hide Consistent;
    hide Stored;
    hide Hashes;
    r := Ok(store);
  }

  lemma FilledStore(H: Keccak, nodes: seq<Bytes>, out: map<Hash, StoredNode>)
    requires forall j :: 0 <= j < |nodes| ==> H(nodes[j]) in out && out[H(nodes[j])] == StoredNode(nodes[j], false)
    requires forall h :: h in out ==> exists j :: 0 <= j < |nodes| && H(nodes[j]) == h
    ensures var content: Store := map h | h in out :: out[h].bytes;
            && Consistent(H, content) && Stored(H, content, Elements(nodes))
            && content.Keys == Hashes(H, Elements(nodes))
    ensures forall h :: h in out ==> !out[h].used
  {
  }

  // ----- visits -----

  datatype Visit = Visit(index: nat, value: Bytes)

  /** The visitor's state after a sequence of visits; the first failure ends it. */
  function FoldVisits<S, E>(visit: (S, nat, Bytes) -> Result<S, E>, init: S, visits: seq<Visit>): Result<S, E> {
    if visits == [] then Ok(init)
    else
      var state :- FoldVisits(visit, init, visits[..|visits| - 1]);
      var last := visits[|visits| - 1];
      visit(state, last.index, last.value)
  }

  lemma FoldStep<S, E>(visit: (S, nat, Bytes) -> Result<S, E>, init: S, visits: seq<Visit>, v: Visit)
    ensures FoldVisits(visit, init, visits + [v]) ==
            var before := FoldVisits(visit, init, visits);
            if before.Err? then before else visit(before.value, v.index, v.value)
  {
    assert (visits + [v])[..|visits|] == visits;
  }

  lemma {:induction false} FoldErrorStays<S, E>(
      visit: (S, nat, Bytes) -> Result<S, E>, init: S, visits: seq<Visit>, k: nat)
    requires k <= |visits| && FoldVisits(visit, init, visits[..k]).Err?
    ensures FoldVisits(visit, init, visits) == FoldVisits(visit, init, visits[..k])
  {
    if k == |visits| {
      assert visits[..k] == visits;
    } else {
      assert visits[..|visits| - 1][..k] == visits[..k];
      FoldErrorStays(visit, init, visits[..|visits| - 1], k);
    }
  }

  ghost predicate Keyed(es: seq<Entry>) {
    forall i :: 0 <= i < |es| ==> PathIndex(es[i].key).Ok?
  }

  function VisitOf(e: Entry): Visit
    requires PathIndex(e.key).Ok?
  {
    Visit(PathIndex(e.key).value, e.value)
  }

  ghost function VisitsOf(es: seq<Entry>): (visits: seq<Visit>)
    requires Keyed(es)
    ensures |visits| == |es|
  {
    seq(|es|, i requires 0 <= i < |es| => VisitOf(es[i]))
  }

  /** Whether `m` is the greatest index among keyed entries. */
  ghost predicate Greatest(m: nat, es: seq<Entry>)
    requires Keyed(es)
  {
    && (forall i :: 0 <= i < |es| ==> PathIndex(es[i].key).value <= m)
    && (exists i :: 0 <= i < |es| && PathIndex(es[i].key).value == m)
  }

  class Indices {
    var count: nat
    var max: Option<nat>
    var previous: Option<Bytes>

    constructor ()
      ensures Tracks([])
    {
      count, max, previous := 0, None, None;
    }

    /** The bookkeeping of the entries recorded so far. */
    ghost predicate Tracks(done: seq<Entry>)
      reads this
    {
      && Keyed(done)
      && count == |done| < U64_LIMIT
      && (done == [] ==> max == None && previous == None)
      && (done != [] ==> max.Some? && Greatest(max.value, done))
      && (done != [] ==> previous == Some(ReceiptKeyOf(done[|done| - 1])))
    }

    method Record<E>(path: Nibbles) returns (r: Result<nat, WalkError<E>>)
      modifies this
      ensures PathIndex(path).Err? ==> r == Err(BadIndex(PathIndex(path).error))
      ensures PathIndex(path).Ok? ==>
                var index := PathIndex(path).value;
                index < U64_LIMIT &&
                if old(previous).Some? && !LexLess(old(previous).value, ReceiptKey(index)) then
                  r == Err(NonIncreasingKeys)
                else if old(count) + 1 >= U64_LIMIT then r == Err(CountOverflow)
                else
                  && r == Ok(index)
                  && count == old(count) + 1
                  && previous == Some(ReceiptKey(index))
                  && max == Some(if old(max).Some? && old(max).value > index then old(max).value else index)
    {
      var decoded := DecodePathIndex(path);
      if decoded.Err? {
        return Err(BadIndex(decoded.error));
      }
      var index := decoded.value;
      PathIndexCanonical(path, index);
      var key := ReceiptKey(index);
      if previous.Some? && !LexLess(previous.value, key) {
        return Err(NonIncreasingKeys);
      }
      previous := Some(key);
      if count + 1 >= U64_LIMIT {
        return Err(CountOverflow);
      }
      count := count + 1;
      max := Some(if max.Some? && max.value > index then max.value else index);
      r := Ok(index);
    }
  }

  function ReceiptKeyOf(e: Entry): Bytes
    requires PathIndex(e.key).Ok?
  {
    PathIndexCanonical(e.key, PathIndex(e.key).value);
    ReceiptKey(PathIndex(e.key).value)
  }

  lemma KeyOrderOfEntries(a: Entry, b: Entry)
    requires PathIndex(a.key).Ok? && PathIndex(b.key).Ok? && LexLess(a.key, b.key)
    ensures LexLess(ReceiptKeyOf(a), ReceiptKeyOf(b))
  {
    PathIndexCanonical(a.key, PathIndex(a.key).value);
    PathIndexCanonical(b.key, PathIndex(b.key).value);
    NibbleOrder(ReceiptKeyOf(a), ReceiptKeyOf(b));
  }
}
