/** The Rust reader of encoded trie nodes, and its agreement with the writer's format. */
module NodeCodec {
  import opened Prelude
  import opened HexPrefix
  import opened Tries
  import Rlp
  import RlpTree

  datatype Error =
    | IncompleteProof | HashMismatch | InvalidRlp | InvalidNode | InvalidPath
    | InvalidChildReference | NonCanonicalChildReference | TrailingProofNodes

  datatype Child = NoChild | HashChild(hash: Hash) | EmbeddedChild(raw: Bytes)

  datatype Node =
    | BranchNode(children: seq<Child>, value: Bytes)
    | LeafNode(path: Path, value: Bytes)
    | ExtensionNode(path: Path, child: Child)

  // ----- reading -----

  function FieldBytes(item: Rlp.Item): Result<Bytes, Error> {
    if item.list then Err(InvalidNode) else Ok(item.data)
  }

  /** A node of 17 or 2 fields; embedded children are validated whether or not they are used. */
  function ReadNode(encoded: Bytes): (r: Result<Node, Error>)
    ensures r.Ok? && r.value.BranchNode? ==> |r.value.children| == 16
    ensures r.Ok? && r.value.LeafNode? ==> r.value.path.Valid()
    ensures r.Ok? && r.value.ExtensionNode? ==> r.value.path.Valid() && r.value.path.len > 0
    decreases |encoded|, 1, 0
  {
    match Rlp.ListItems(encoded)
    case Err(_) => Err(InvalidRlp)
    case Ok(fields) =>
      Rlp.ItemsShrink(encoded);
      NodeOfFields(fields, |encoded|)
  }

  function NodeOfFields(fields: seq<Rlp.Item>, limit: nat): (r: Result<Node, Error>)
    requires forall i :: 0 <= i < |fields| ==> |fields[i].raw| < limit
    ensures r.Ok? && r.value.BranchNode? ==> |r.value.children| == 16
    ensures r.Ok? && r.value.LeafNode? ==> r.value.path.Valid()
    ensures r.Ok? && r.value.ExtensionNode? ==> r.value.path.Valid() && r.value.path.len > 0
    decreases limit, 0, 17
  {
    if |fields| == 17 then
      var children :- ReadChildren(fields[..16], limit);
      var value :- FieldBytes(fields[16]);
      Ok(BranchNode(children, value))
    else if |fields| == 2 then
      var bytes :- FieldBytes(fields[0]);
      match ReadCompact(bytes) {
        case None => Err(InvalidPath)
        case Some(path) =>
          if path.leaf then
            var value :- FieldBytes(fields[1]);
            Ok(LeafNode(path, value))
          else
            var child :- ReadChild(fields[1]);
            if child.NoChild? then Err(InvalidChildReference) else Ok(ExtensionNode(path, child))
      }
    else Err(InvalidNode)
  }

  function ReadChild(item: Rlp.Item): Result<Child, Error>
    decreases |item.raw|, 2, 0
  {
    if item.list then
      if |item.raw| >= 32 then Err(NonCanonicalChildReference)
      else
        var _ :- ReadNode(item.raw);
        Ok(EmbeddedChild(item.raw))
    else if |item.data| == 0 then Ok(NoChild)
    else if |item.data| == 32 then Ok(HashChild(item.data))
    else Err(InvalidChildReference)
  }

  function ReadChildren(items: seq<Rlp.Item>, limit: nat): (r: Result<seq<Child>, Error>)
    requires forall i :: 0 <= i < |items| ==> |items[i].raw| < limit
    ensures r.Ok? ==> |r.value| == |items|
    ensures r.Ok? ==> forall i :: 0 <= i < |items| ==> ReadChild(items[i]) == Ok(r.value[i])
    decreases limit, 0, |items|
  {
    if items == [] then Ok([])
    else
      var first :- ReadChild(items[0]);
      var rest :- ReadChildren(items[1..], limit);
      Ok([first] + rest)
  }

  // ----- the flat format of one node -----

  function ChildItem(child: Child): Rlp.Item {
    match child
    case NoChild => Rlp.Item(Rlp.EncodeItem(false, []), [], false)
    case HashChild(hash) => Rlp.Item(Rlp.EncodeItem(false, hash), hash, false)
    case EmbeddedChild(raw) =>
      match Rlp.ReadItem(raw) {
        case Ok(item) => item
        case Err(_) => Rlp.Item(raw, raw, true)
      }
  }

  function BytesItem(bytes: Bytes): Rlp.Item {
    Rlp.Item(Rlp.EncodeItem(false, bytes), bytes, false)
  }

  function Fields(node: Node): seq<Rlp.Item> {
    match node
    case BranchNode(children, value) =>
      seq(|children|, i requires 0 <= i < |children| => ChildItem(children[i])) + [BytesItem(value)]
    case LeafNode(path, value) => [BytesItem(path.bytes), BytesItem(value)]
    case ExtensionNode(path, child) => [BytesItem(path.bytes), ChildItem(child)]
  }

  ghost predicate ValidChild(child: Child) {
    child.EmbeddedChild? ==> |child.raw| < 32 && ReadNode(child.raw).Ok?
  }

  ghost predicate ValidNode(node: Node) {
    match node
    case BranchNode(children, _) =>
      |children| == 16 && forall i :: 0 <= i < 16 ==> ValidChild(children[i])
    case LeafNode(path, _) => path.leaf && ReadCompact(path.bytes) == Some(path)
    case ExtensionNode(path, child) =>
      !path.leaf && ReadCompact(path.bytes) == Some(path) && !child.NoChild? && ValidChild(child)
  }

  lemma ReadNodeIsList(raw: Bytes)
    requires ReadNode(raw).Ok?
    ensures Rlp.ReadItem(raw).Ok? && Rlp.ReadItem(raw).value.list
    ensures Rlp.ReadItem(raw).value.Valid() && Rlp.ReadItem(raw).value.raw == raw
  {
    Rlp.ReadItemSound(raw);
  }

  /** An item is read as a given child exactly when it is the field of that child. */
  lemma ChildCanonical(item: Rlp.Item, child: Child)
    requires item.Valid()
    ensures ReadChild(item) == Ok(child) <==> ValidChild(child) && item == ChildItem(child)
  {
    hide Rlp.EncodeItem;
    hide Rlp.Prefix;
    hide ReadNode;
    Rlp.ReadItemComplete(item);
    if ValidChild(child) && child.EmbeddedChild? {
      ReadNodeIsList(child.raw);
    }
  }

  lemma ChildItemValid(child: Child)
    requires ValidChild(child)
    ensures ChildItem(child).Valid()
  {
    match child
    case NoChild =>
    case HashChild(hash) =>
    case EmbeddedChild(raw) => ReadNodeIsList(raw);
  }

  /** What the reader accepts has the fields of the node it reports. */
  lemma ReadNodeSound(encoded: Bytes)
    requires ReadNode(encoded).Ok?
    ensures ValidNode(ReadNode(encoded).value)
    ensures Rlp.ListItems(encoded) == Ok(Fields(ReadNode(encoded).value))
  {
    var fields := Rlp.ListItems(encoded).value;
    Rlp.ListCanonical(encoded, fields);
    Rlp.ItemsShrink(encoded);
    assert ReadNode(encoded) == NodeOfFields(fields, |encoded|);
    NodeOfFieldsSound(fields, |encoded|);
  }

  lemma NodeOfFieldsSound(fields: seq<Rlp.Item>, limit: nat)
    requires forall i :: 0 <= i < |fields| ==> |fields[i].raw| < limit
    requires Rlp.AllValid(fields) && NodeOfFields(fields, limit).Ok?
    ensures ValidNode(NodeOfFields(fields, limit).value)
    ensures fields == Fields(NodeOfFields(fields, limit).value)
  {
    var node := NodeOfFields(fields, limit).value;
    if |fields| == 17 {
      assert ReadChildren(fields[..16], limit) == Ok(node.children);
      BranchFieldsSound(fields, node.children);
      assert fields[16] == BytesItem(node.value);
      assert fields == Fields(node);
    } else {
      PairSound(fields, node);
    }
  }

  /** The two-field case of the reader. */
  lemma PairSound(fields: seq<Rlp.Item>, node: Node)
    requires Rlp.AllValid(fields) && |fields| == 2
    requires !fields[0].list && !node.BranchNode? && ReadCompact(fields[0].data) == Some(node.path)
    requires node.LeafNode? ==> node.path.leaf && FieldBytes(fields[1]) == Ok(node.value)
    requires node.ExtensionNode? ==>
               !node.path.leaf && !node.child.NoChild? && ReadChild(fields[1]) == Ok(node.child)
    ensures ValidNode(node) && fields == Fields(node)
  {
    assert fields == [fields[0], fields[1]];
    if node.ExtensionNode? {
      ChildCanonical(fields[1], node.child);
    }
  }

  lemma BranchFieldsSound(fields: seq<Rlp.Item>, children: seq<Child>)
    requires Rlp.AllValid(fields) && |fields| == 17 && |children| == 16
    requires forall i :: 0 <= i < 16 ==> ReadChild(fields[..16][i]) == Ok(children[i])
    ensures forall i :: 0 <= i < 16 ==> ValidChild(children[i]) && fields[i] == ChildItem(children[i])
  {
    forall i | 0 <= i < 16 ensures ValidChild(children[i]) && fields[i] == ChildItem(children[i]) {
      assert fields[..16][i] == fields[i];
      ChildCanonical(fields[i], children[i]);
    }
  }

  /** Conversely, the fields of a valid node are read back as that node. */
  lemma ReadNodeComplete(encoded: Bytes, node: Node)
    requires ValidNode(node)
    requires Rlp.ListItems(encoded) == Ok(Fields(node))
    ensures ReadNode(encoded) == Ok(node)
  {
    var fields := Fields(node);
    Rlp.ListCanonical(encoded, fields);
    Rlp.ItemsShrink(encoded);
    match node
    case BranchNode(children, value) =>
      BranchFieldsComplete(fields[..16], children, |encoded|);
    case LeafNode(path, value) =>
    case ExtensionNode(path, child) =>
      ChildCanonical(fields[1], child);
  }

  lemma {:induction false} BranchFieldsComplete(items: seq<Rlp.Item>, children: seq<Child>, limit: nat)
    requires |items| == |children|
    requires forall i :: 0 <= i < |items| ==> |items[i].raw| < limit
    requires forall i :: 0 <= i < |items| ==> ValidChild(children[i]) && items[i] == ChildItem(children[i])
    ensures ReadChildren(items, limit) == Ok(children)
  {
    if items != [] {
      ChildItemValid(children[0]);
      ChildCanonical(items[0], children[0]);
      BranchFieldsComplete(items[1..], children[1..], limit);
      assert children == [children[0]] + children[1..];
    }
  }

  // ----- the node of an abstract trie -----

  /** How a parent refers to a subtrie. */
  function ChildOf(H: Keccak, t: Trie): Child {
    var encoded := EncodeNode(H, t);
    if |encoded| >= 32 then HashChild(H(encoded)) else EmbeddedChild(encoded)
  }

  function ChildOfSlot(H: Keccak, slot: Slot): Child {
    match slot
    case Vacant => NoChild
    case Occupied(node) => ChildOf(H, node)
  }

  function PathOf(ns: Nibbles, leaf: bool): Path {
    var bytes := Compact(ns, leaf);
    Path(bytes, 2 - bytes[0] / 16 % 2, |ns|, leaf)
  }

  /** One level of a trie as the reader sees it. */
  function View(H: Keccak, t: Trie): Node {
    match t
    case Leaf(path, value) => LeafNode(PathOf(path, true), value)
    case Extension(path, child) => ExtensionNode(PathOf(path, false), ChildOf(H, child))
    case Branch(children, value) =>
      BranchNode(seq(|children|, i requires 0 <= i < |children| => ChildOfSlot(H, children[i])), value)
  }

  lemma PathOfRead(ns: Nibbles, leaf: bool)
    requires leaf || ns != []
    ensures ReadCompact(Compact(ns, leaf)) == Some(PathOf(ns, leaf))
    ensures PathOf(ns, leaf).Valid() && PathOf(ns, leaf).Nibbles() == ns
  {
    CompactCanonical(Compact(ns, leaf), ns, leaf);
  }

  lemma PathOfNibbles(path: Path)
    requires ReadCompact(path.bytes) == Some(path)
    ensures PathOf(path.Nibbles(), path.leaf) == path
  {
    CompactOfRead(path.bytes);
  }

  lemma TopOfReference(H: Keccak, t: Trie)
    requires |EncodeNode(H, t)| < U64_LIMIT
    ensures RlpTree.TopItem(NodeReference(H, t)) == ChildItem(ChildOf(H, t))
  {
    var structure := NodeStructure(H, t);
    if |EncodeNode(H, t)| < 32 {
      RlpTree.TopItemValid(structure);
      Rlp.ReadItemComplete(RlpTree.TopItem(structure));
    }
  }

  lemma FieldOfTrie(H: Keccak, t: Trie, i: nat)
    requires AddressableBelow(H, t) && i < |NodeStructure(H, t).items|
    ensures |Fields(View(H, t))| == |NodeStructure(H, t).items|
    ensures RlpTree.TopItem(NodeStructure(H, t).items[i]) == Fields(View(H, t))[i]
  {
    match t
    case Leaf(path, value) =>
    case Extension(path, child) => TopOfReference(H, child);
    case Branch(children, value) =>
      if i < |children| {
        SlotStructureAt(H, children, i);
        if children[i].Occupied? {
          TopOfReference(H, children[i].node);
        }
      }
  }

  /** The payload of an encoded trie node is made of the fields of its view. */
  lemma PayloadOfTrie(H: Keccak, t: Trie)
    requires AddressableBelow(H, t)
    ensures EncodeNode(H, t) == Rlp.EncodeItem(true, Rlp.Join(Fields(View(H, t))))
  {
    var vs := NodeStructure(H, t).items;
    var fields := Fields(View(H, t));
    forall i | 0 <= i < |vs| ensures fields[i] == RlpTree.TopItem(vs[i]) {
      FieldOfTrie(H, t, i);
    }
    RlpTree.JoinTops(vs, fields);
  }

  /** The fields the reader finds in an encoded trie node. */
  lemma FieldsOfTrie(H: Keccak, t: Trie)
    requires Addressable(H, t)
    ensures Rlp.ListItems(EncodeNode(H, t)) == Ok(Fields(View(H, t)))
  {
    var vs := NodeStructure(H, t).items;
    var tops := seq(|vs|, i requires 0 <= i < |vs| => RlpTree.TopItem(vs[i]));
    RlpTree.ItemsOfEncoded(vs);
    hide Rlp.ListItems;
    forall i | 0 <= i < |vs| ensures tops[i] == Fields(View(H, t))[i] {
      FieldOfTrie(H, t, i);
    }
    assert tops == Fields(View(H, t));
  }

  /** Every node a well-formed trie encodes is accepted and read as that node. */
  lemma {:induction false} ReadTrie(H: Keccak, t: Trie)
    requires WellFormed(t) && Addressable(H, t)
    ensures ReadNode(EncodeNode(H, t)) == Ok(View(H, t))
    decreases t
  {
    FieldsOfTrie(H, t);
    match t {
      case Leaf(path, value) => PathOfRead(path, true);
      case Extension(path, child) =>
        PathOfRead(path, false);
        ReadTrie(H, child);
      case Branch(children, value) =>
        forall i | 0 <= i < 16 ensures ValidChild(ChildOfSlot(H, children[i])) {
          if children[i].Occupied? {
            ReadTrie(H, children[i].node);
          }
        }
    }
    ReadNodeComplete(EncodeNode(H, t), View(H, t));
  }

  /** And nothing else is read as that node: the encoding is determined by one level of the trie. */
  lemma ReadDeterminesEncoding(H: Keccak, encoded: Bytes, t: Trie)
    requires ReadNode(encoded) == Ok(View(H, t))
    requires AddressableBelow(H, t)
    ensures encoded == EncodeNode(H, t) && Addressable(H, t)
  {
    ReadNodeSound(encoded);
    PayloadOfTrie(H, t);
    Rlp.ListCanonical(encoded, Fields(View(H, t)));
  }

  // ----- the reader as the program runs it -----

  /** `ReadNode` with its loop over the sixteen child slots. */
  method ParseNode(encoded: Bytes) returns (r: Result<Node, Error>)
    ensures r == ReadNode(encoded)
    decreases |encoded|, 1
  {
    var read := Rlp.ReadList(encoded);
    if read.Err? {
      return Err(InvalidRlp);
    }
    var fields := read.value;
    Rlp.ItemsShrink(encoded);
    if |fields| == 17 {
      var children: seq<Child> := [];
      AppendNothing(ReadChildren(fields[..16], |encoded|));
      for slot := 0 to 16
        invariant |children| == slot
        invariant ReadChildren(fields[..16], |encoded|) ==
                  Append(children, ReadChildren(fields[slot..16], |encoded|))
      {
        assert fields[slot..16][1..] == fields[slot + 1..16];
        var child := ParseChild(fields[slot]);
        if child.Err? {
          return Err(child.error);
        }
        AppendStep(children, child.value, ReadChildren(fields[slot + 1..16], |encoded|));
        children := children + [child.value];
      }
      assert fields[16..16] == [] && children + [] == children;
      var value := FieldBytes(fields[16]);
      if value.Err? {
        return Err(value.error);
      }
      return Ok(BranchNode(children, value.value));
    }
    if |fields| != 2 {
      return Err(InvalidNode);
    }
    var bytes :- FieldBytes(fields[0]);
    var path := ReadCompact(bytes);
    if path.None? {
      return Err(InvalidPath);
    }
    if path.value.leaf {
      var value :- FieldBytes(fields[1]);
      return Ok(LeafNode(path.value, value));
    }
    var child :- ParseChild(fields[1]);
    if child.NoChild? {
      return Err(InvalidChildReference);
    }
    return Ok(ExtensionNode(path.value, child));
  }

  method ParseChild(item: Rlp.Item) returns (r: Result<Child, Error>)
    ensures r == ReadChild(item)
    decreases |item.raw|, 2
  {
    if item.list {
      if |item.raw| >= 32 {
        return Err(NonCanonicalChildReference);
      }
      var _ :- ParseNode(item.raw);
      return Ok(EmbeddedChild(item.raw));
    }
    if |item.data| == 0 {
      return Ok(NoChild);
    }
    if |item.data| == 32 {
      return Ok(HashChild(item.data));
    }
    return Err(InvalidChildReference);
  }

  function Append(read: seq<Child>, rest: Result<seq<Child>, Error>): Result<seq<Child>, Error> {
    match rest
    case Ok(children) => Ok(read + children)
    case Err(e) => Err(e)
  }

  lemma AppendNothing(rest: Result<seq<Child>, Error>)
    ensures Append([], rest) == rest
  {
    if rest.Ok? {
      assert [] + rest.value == rest.value;
    }
  }

  lemma AppendStep(read: seq<Child>, child: Child, rest: Result<seq<Child>, Error>)
    ensures Append(read, Append([child], rest)) == Append(read + [child], rest)
  {
    if rest.Ok? {
      assert read + ([child] + rest.value) == read + [child] + rest.value;
    }
  }
}
