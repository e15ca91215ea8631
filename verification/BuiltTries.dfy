/** What the builder builds: a well-formed trie that holds exactly the given entries. */
module BuiltTries {
  import opened Prelude
  import opened HexPrefix
  import opened Tries
  import opened Builder
  import Rlp
  import RlpTree

  // ----- content -----

  /** The key part below `depth` that a built node has to find. */
  lemma KeyUnder(first: Nibbles, key: Nibbles, depth: nat)
    requires Agree(first, key, depth)
    ensures key == first[..depth] + key[depth..]
  {
  }

  lemma {:induction false} OwnValueOf(entries: seq<Entry>, depth: nat, e: Entry)
    requires e in entries && |e.key| == depth
    requires forall i :: 0 <= i < |entries| && |entries[i].key| == depth ==> entries[i] == e
    ensures OwnValue(entries, depth) == e.value
  {
    var front, last := entries[..|entries| - 1], entries[|entries| - 1];
    assert entries == front + [last];
    if |last.key| != depth {
      OwnValueOf(front, depth, e);
    }
  }

  lemma {:induction false} NoOwnValue(entries: seq<Entry>, depth: nat)
    requires forall i :: 0 <= i < |entries| ==> |entries[i].key| != depth
    ensures OwnValue(entries, depth) == []
  {
    if entries != [] {
      NoOwnValue(entries[..|entries| - 1], depth);
    }
  }

  /** At most one of several grouped entries ends at `depth`. */
  lemma EndsOnce(entries: seq<Entry>, depth: nat, i: nat, j: nat)
    requires Grouped(entries, depth) && i < |entries| && j < |entries|
    requires |entries[i].key| == depth && |entries[j].key| == depth
    ensures i == j
  {
    assert Agree(entries[0].key, entries[i].key, depth) && Agree(entries[0].key, entries[j].key, depth);
    assert entries[i].key == entries[j].key;
  }

  /** A built trie answers exactly with the entries it was built from. */
  lemma {:induction false} BuildContent(entries: seq<Entry>, depth: nat, key: Nibbles, value: Bytes)
    requires Grouped(entries, depth)
    requires forall i :: 0 <= i < |entries| ==> entries[i].value != []
    ensures Lookup(Build(entries, depth), key) == Some(value) <==>
            Entry(entries[0].key[..depth] + key, value) in entries
    decreases |entries|, |entries[0].key| - depth, 17
  {
    var first := entries[0];
    if |entries| == 1 {
      KeyUnder(first.key, first.key, depth);
      assert (first.key[..depth] + key)[depth..] == key;
      assert entries == [first];
    } else if SharedPrefix(entries, depth) > 0 {
      ExtensionContent(entries, depth, key, value);
    } else {
      BranchContent(entries, depth, key, value);
    }
  }

  lemma {:induction false} ExtensionContent(entries: seq<Entry>, depth: nat, key: Nibbles, value: Bytes)
    requires Grouped(entries, depth) && |entries| > 1 && SharedPrefix(entries, depth) > 0
    requires forall i :: 0 <= i < |entries| ==> entries[i].value != []
    ensures Lookup(Build(entries, depth), key) == Some(value) <==>
            Entry(entries[0].key[..depth] + key, value) in entries
    decreases |entries|, |entries[0].key| - depth, 16
  {
    hide Bucket;
    hide BuildSlots;
    hide OwnValue;
    hide SharedPrefix;
    var first, shared := entries[0].key, SharedPrefix(entries, depth);
    var path, whole := first[depth..depth + shared], first[..depth] + key;
    SharedGrouped(entries, depth);
    assert first[..depth + shared] == first[..depth] + path;
    forall i | 0 <= i < |entries| && entries[i] == Entry(whole, value) ensures path <= key {
      SharedPath(entries, depth, i, key);
    }
    if path <= key {
      assert whole == first[..depth + shared] + key[shared..];
      BuildContent(entries, depth + shared, key[shared..], value);
    }
  }

  /** Every key of the group continues with the shared nibbles. */
  lemma SharedPath(entries: seq<Entry>, depth: nat, i: nat, key: Nibbles)
    requires Grouped(entries, depth) && i < |entries|
    requires entries[i].key == entries[0].key[..depth] + key
    ensures entries[0].key[depth..depth + SharedPrefix(entries, depth)] <= key
  {
    var first, shared := entries[0].key, SharedPrefix(entries, depth);
    SharedByAll(entries, depth, i);
    assert entries[i].key[depth..] == key;
    forall k | 0 <= k < shared ensures first[depth..depth + shared][k] == key[k] {
      assert first[depth + k] == entries[i].key[depth + k];
    }
  }

  lemma {:induction false} BranchContent(entries: seq<Entry>, depth: nat, key: Nibbles, value: Bytes)
    requires Grouped(entries, depth) && |entries| > 1 && SharedPrefix(entries, depth) == 0
    requires forall i :: 0 <= i < |entries| ==> entries[i].value != []
    ensures Lookup(Build(entries, depth), key) == Some(value) <==>
            Entry(entries[0].key[..depth] + key, value) in entries
    decreases |entries|, |entries[0].key| - depth, 16
  {
    hide Bucket;
    hide BuildSlots;
    hide SharedPrefix;
    hide OwnValue;
    var prefix := entries[0].key[..depth];
    if key == [] {
      assert prefix + key == prefix;
      OwnContent(entries, depth, value);
    } else {
      var n, e := key[0], Entry(prefix + key, value);
      var bucket := Bucket(entries, depth, n);
      BuildSlotsAt(entries, depth, 0, n);
      BucketContent(entries, depth, n, e);
      assert Continues(e, depth, n);
      if bucket != [] {
        BucketGrouped(entries, depth, n);
        BucketValues(entries, depth, n);
        assert bucket[0].key[..depth + 1] == prefix + [n];
        assert e.key == prefix + [n] + key[1..];
        BuildContent(bucket, depth + 1, key[1..], value);
      }
    }
  }

  lemma BucketValues(entries: seq<Entry>, depth: nat, n: nibble)
    requires forall i :: 0 <= i < |entries| ==> entries[i].value != []
    ensures forall i :: 0 <= i < |Bucket(entries, depth, n)| ==> Bucket(entries, depth, n)[i].value != []
  {
    forall i | 0 <= i < |Bucket(entries, depth, n)| ensures Bucket(entries, depth, n)[i].value != [] {
      BucketContent(entries, depth, n, Bucket(entries, depth, n)[i]);
    }
  }

  lemma OwnContent(entries: seq<Entry>, depth: nat, value: Bytes)
    requires Grouped(entries, depth)
    requires forall i :: 0 <= i < |entries| ==> entries[i].value != []
    ensures OwnValue(entries, depth) != [] && OwnValue(entries, depth) == value <==>
            Entry(entries[0].key[..depth], value) in entries
  {
    var prefix := entries[0].key[..depth];
    if i :| 0 <= i < |entries| && |entries[i].key| == depth {
      assert Agree(entries[0].key, entries[i].key, depth);
      assert entries[i].key == prefix;
      forall j | 0 <= j < |entries| && |entries[j].key| == depth ensures entries[j] == entries[i] {
        EndsOnce(entries, depth, i, j);
      }
      OwnValueOf(entries, depth, entries[i]);
    } else {
      NoOwnValue(entries, depth);
    }
  }

  // ----- shape -----

  /** An occupied slot is built from the bucket of its nibble. */
  lemma SlotBuilt(entries: seq<Entry>, depth: nat, i: nat)
    requires Grouped(entries, depth) && SharedPrefix(entries, depth) == 0 && i < 16
    requires BuildSlots(entries, depth, 0)[i].Occupied?
    ensures var bucket := Bucket(entries, depth, i);
            && bucket != [] && |bucket| < |entries| && Grouped(bucket, depth + 1)
            && BuildSlots(entries, depth, 0)[i].node == Build(bucket, depth + 1)
  {
    BuildSlotsAt(entries, depth, 0, i);
    BucketGrouped(entries, depth, i);
  }

  lemma {:induction false} BuildWellFormed(entries: seq<Entry>, depth: nat)
    requires Grouped(entries, depth)
    ensures WellFormed(Build(entries, depth))
    decreases |entries|, |entries[0].key| - depth
  {
    hide Bucket;
    hide BuildSlots;
    hide SharedPrefix;
    hide OwnValue;
    if |entries| > 1 {
      if SharedPrefix(entries, depth) > 0 {
        SharedGrouped(entries, depth);
        BuildWellFormed(entries, depth + SharedPrefix(entries, depth));
      } else {
        var slots := BuildSlots(entries, depth, 0);
        SomeSlotOccupied(entries, depth);
        forall i | 0 <= i < 16 && slots[i].Occupied? ensures WellFormed(slots[i].node) {
          SlotBuilt(entries, depth, i);
          BuildWellFormed(Bucket(entries, depth, i), depth + 1);
        }
      }
    }
  }

  lemma NotBothEnd(entries: seq<Entry>, depth: nat)
    requires Grouped(entries, depth) && |entries| > 1
    ensures |entries[0].key| > depth || |entries[1].key| > depth
  {
    assert Agree(entries[0].key, entries[1].key, depth);
    WholeKeys(entries[0].key, entries[1].key, depth);
  }

  lemma WholeKeys(a: Nibbles, b: Nibbles, depth: nat)
    requires depth <= |a| && depth <= |b| && a[..depth] == b[..depth]
    ensures |a| == depth && |b| == depth ==> a == b
  {
    assert |a| == depth ==> a[..depth] == a;
    assert |b| == depth ==> b[..depth] == b;
  }

  lemma SomeSlotOccupied(entries: seq<Entry>, depth: nat)
    requires Grouped(entries, depth) && |entries| > 1 && SharedPrefix(entries, depth) == 0
    ensures exists i :: 0 <= i < 16 && BuildSlots(entries, depth, 0)[i].Occupied?
  {
    NotBothEnd(entries, depth);
    var k := if |entries[0].key| > depth then 0 else 1;
    var n := entries[k].key[depth];
    BucketContent(entries, depth, n, entries[k]);
    BuildSlotsAt(entries, depth, 0, n);
  }

  // ----- sizes -----

  const SMALL: nat := 0x1_0000_0000

  /** Paths and values below 2^32, as any string of the TypeScript side is. */
  ghost predicate Small(t: Trie)
    decreases t
  {
    match t
    case Leaf(path, value) => |path| < SMALL && |value| < SMALL
    case Extension(path, child) => |path| < SMALL && Small(child)
    case Branch(children, value) =>
      |children| == 16 && |value| < SMALL
      && forall i :: 0 <= i < |children| && children[i].Occupied? ==> Small(children[i].node)
  }

  lemma {:induction false} SmallAddressable(H: Keccak, t: Trie)
    requires Small(t)
    ensures Addressable(H, t)
    decreases t
  {
    match t
    case Leaf(path, value) =>
      CompactSize(path, true);
      PairSize(RlpTree.Str(Compact(path, true)), RlpTree.Str(value));
      Rlp.EncodedSize(false, Compact(path, true));
      Rlp.EncodedSize(false, value);
      Rlp.EncodedSize(true, RlpTree.EncodeAll(NodeStructure(H, t).items));
    case Extension(path, child) =>
      SmallAddressable(H, child);
      CompactSize(path, false);
      PairSize(RlpTree.Str(Compact(path, false)), NodeReference(H, child));
      Rlp.EncodedSize(false, Compact(path, false));
      ReferenceSize(H, child);
      Rlp.EncodedSize(true, RlpTree.EncodeAll(NodeStructure(H, t).items));
    case Branch(children, value) =>
      forall i | 0 <= i < 16 && children[i].Occupied? ensures Addressable(H, children[i].node) {
        SmallAddressable(H, children[i].node);
      }
      SlotsSize(H, children);
      RlpTree.EncodeAllConcat(SlotStructures(H, children), [RlpTree.Str(value)]);
      Rlp.EncodedSize(false, value);
      Rlp.EncodedSize(true, RlpTree.EncodeAll(NodeStructure(H, t).items));
  }

  lemma PairSize(a: RlpTree.Value, b: RlpTree.Value)
    ensures RlpTree.EncodeAll([a, b]) == RlpTree.Encode(a) + RlpTree.Encode(b)
  {
    RlpTree.EncodeAllCons(a, [b]);
    RlpTree.EncodeAllCons(b, []);
    assert [a, b] == [a] + [b] && [b] == [b] + [];
  }

  lemma ReferenceSize(H: Keccak, t: Trie)
    ensures |RlpTree.Encode(NodeReference(H, t))| <= 33
    ensures |EncodeNode(H, t)| >= 32 ==> |RlpTree.Encode(NodeReference(H, t))| == 33
  {
  }

  lemma {:induction false} SlotsSize(H: Keccak, slots: seq<Slot>)
    ensures |RlpTree.EncodeAll(SlotStructures(H, slots))| <= 33 * |slots|
  {
    if slots != [] {
      SlotsSize(H, slots[1..]);
      if slots[0].Occupied? {
        ReferenceSize(H, slots[0].node);
      }
      RlpTree.EncodeAllCons(SlotStructure(H, slots[0]), SlotStructures(H, slots[1..]));
    }
  }

  lemma {:induction false} BuildSmall(entries: seq<Entry>, depth: nat)
    requires Grouped(entries, depth)
    requires forall i :: 0 <= i < |entries| ==> |entries[i].key| < SMALL && |entries[i].value| < SMALL
    ensures Small(Build(entries, depth))
    decreases |entries|, |entries[0].key| - depth
  {
    hide Bucket;
    hide BuildSlots;
    hide SharedPrefix;
    hide OwnValue;
    if |entries| > 1 {
      if SharedPrefix(entries, depth) > 0 {
        SharedGrouped(entries, depth);
        BuildSmall(entries, depth + SharedPrefix(entries, depth));
      } else {
        var slots := BuildSlots(entries, depth, 0);
        OwnValueSmall(entries, depth);
        forall i | 0 <= i < 16 && slots[i].Occupied? ensures Small(slots[i].node) {
          SlotBuilt(entries, depth, i);
          var bucket := Bucket(entries, depth, i);
          forall j | 0 <= j < |bucket| ensures |bucket[j].key| < SMALL && |bucket[j].value| < SMALL {
            BucketContent(entries, depth, i, bucket[j]);
          }
          BuildSmall(bucket, depth + 1);
        }
      }
    }
  }

  lemma {:induction false} OwnValueSmall(entries: seq<Entry>, depth: nat)
    requires forall i :: 0 <= i < |entries| ==> |entries[i].value| < SMALL
    ensures |OwnValue(entries, depth)| < SMALL
  {
    if entries != [] {
      OwnValueSmall(entries[..|entries| - 1], depth);
    }
  }

  /** Tries whose stored values all have at least 32 bytes, as encoded receipts do. */
  ghost predicate LongValues(t: Trie)
    decreases t
  {
    match t
    case Leaf(_, value) => |value| >= 32
    case Extension(_, child) => LongValues(child)
    case Branch(children, value) =>
      && (value == [] || |value| >= 32)
      && forall i :: 0 <= i < |children| && children[i].Occupied? ==> LongValues(children[i].node)
  }

  /** Then every node is long: no node of such a trie is ever inlined. */
  lemma {:induction false} LongNodes(H: Keccak, t: Trie)
    requires WellFormed(t) && LongValues(t) && Addressable(H, t)
    ensures |EncodeNode(H, t)| >= 32
    decreases t
  {
    var items := NodeStructure(H, t).items;
    Rlp.EncodedSize(true, RlpTree.EncodeAll(items));
    match t
    case Leaf(path, value) =>
      RlpTree.EncodeAllBound(items, 1);
      Rlp.EncodedSize(false, value);
    case Extension(path, child) =>
      assert AddressableBelow(H, t);
      LongNodes(H, child);
      ReferenceSize(H, child);
      RlpTree.EncodeAllBound(items, 1);
    case Branch(children, value) =>
      assert AddressableBelow(H, t);
      if value != [] {
        RlpTree.EncodeAllBound(items, 16);
        Rlp.EncodedSize(false, value);
      } else {
        var i :| 0 <= i < 16 && children[i].Occupied?;
        LongNodes(H, children[i].node);
        ReferenceSize(H, children[i].node);
        SlotStructureAt(H, children, i);
        RlpTree.EncodeAllBound(items, i);
      }
  }

  lemma {:induction false} BuildLongValues(entries: seq<Entry>, depth: nat)
    requires Grouped(entries, depth)
    requires forall i :: 0 <= i < |entries| ==> |entries[i].value| >= 32
    ensures LongValues(Build(entries, depth))
    decreases |entries|, |entries[0].key| - depth
  {
    hide Bucket;
    hide BuildSlots;
    hide SharedPrefix;
    hide OwnValue;
    if |entries| > 1 {
      if SharedPrefix(entries, depth) > 0 {
        SharedGrouped(entries, depth);
        BuildLongValues(entries, depth + SharedPrefix(entries, depth));
      } else {
        var slots := BuildSlots(entries, depth, 0);
        OwnValueLong(entries, depth);
        forall i | 0 <= i < 16 && slots[i].Occupied? ensures LongValues(slots[i].node) {
          SlotBuilt(entries, depth, i);
          var bucket := Bucket(entries, depth, i);
          forall j | 0 <= j < |bucket| ensures |bucket[j].value| >= 32 {
            BucketContent(entries, depth, i, bucket[j]);
          }
          BuildLongValues(bucket, depth + 1);
        }
      }
    }
  }

  lemma {:induction false} OwnValueLong(entries: seq<Entry>, depth: nat)
    requires forall i :: 0 <= i < |entries| ==> |entries[i].value| >= 32
    ensures OwnValue(entries, depth) == [] || |OwnValue(entries, depth)| >= 32
  {
    if entries != [] {
      OwnValueLong(entries[..|entries| - 1], depth);
    }
  }
}
