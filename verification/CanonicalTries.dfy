/** The one trie of a content: the shape a Merkle Patricia trie must have, its uniqueness, and that the
    builder meets it. */
module CanonicalTries {
  import opened Prelude
  import opened HexPrefix
  import opened Tries
  import opened Builder
  import opened BuiltTries

  // ----- the shape -----

  /** Every node is needed: leaves hold values, extensions lead to branches, and branches fork. */
  ghost predicate Compressed(t: Trie)
    decreases t
  {
    match t
    case Leaf(_, value) => value != []
    case Extension(path, child) => path != [] && child.Branch? && Compressed(child)
    case Branch(children, value) =>
      && |children| == 16 && Forks(children, value)
      && forall i :: 0 <= i < |children| && children[i].Occupied? ==> Compressed(children[i].node)
  }

  /** At least two of the own value and the occupied slots. */
  ghost predicate Forks(children: seq<Slot>, value: Bytes) {
    || (exists i, j :: 0 <= i < j < |children| && children[i].Occupied? && children[j].Occupied?)
    || (value != [] && exists i :: 0 <= i < |children| && children[i].Occupied?)
  }

  ghost predicate SameContent(t: Trie, u: Trie) {
    forall key: Nibbles :: Lookup(t, key) == Lookup(u, key)
  }

  // ----- uniqueness -----

  lemma {:induction false} SomeKey(t: Trie) returns (key: Nibbles)
    requires Compressed(t)
    ensures Lookup(t, key).Some?
    decreases t
  {
    match t
    case Leaf(path, _) => key := path;
    case Extension(path, child) =>
      var rest := SomeKey(child);
      key := path + rest;
      assert key[|path|..] == rest;
    case Branch(children, _) =>
      var i :| 0 <= i < 16 && children[i].Occupied?;
      key := SlotKey(children, t.value, i);
  }

  lemma {:induction false} SlotKey(children: seq<Slot>, value: Bytes, i: nibble) returns (key: Nibbles)
    requires Compressed(Branch(children, value)) && children[i].Occupied?
    ensures key != [] && key[0] == i && Lookup(Branch(children, value), key).Some?
    decreases children, 1
  {
    assert children decreases to children[i];
    var rest := SomeKey(children[i].node);
    key := [i] + rest;
    assert key[1..] == rest;
  }

  /** A branch stores two keys that part at once. */
  lemma TwoKeys(t: Trie) returns (x: Nibbles, y: Nibbles)
    requires t.Branch? && Compressed(t)
    ensures Lookup(t, x).Some? && Lookup(t, y).Some?
    ensures y != [] && (x == [] || x[0] != y[0])
  {
    if i, j :| 0 <= i < j < 16 && t.children[i].Occupied? && t.children[j].Occupied? {
      x := SlotKey(t.children, t.value, i);
      y := SlotKey(t.children, t.value, j);
    } else {
      var i :| 0 <= i < 16 && t.children[i].Occupied?;
      x := [];
      y := SlotKey(t.children, t.value, i);
    }
  }

  /** So some key of a branch does not continue with a given nibble. */
  lemma KeyBeside(t: Trie, n: nibble) returns (key: Nibbles)
    requires t.Branch? && Compressed(t)
    ensures Lookup(t, key).Some? && (key == [] || key[0] != n)
  {
    hide Lookup;
    hide Compressed;
    var x, y := TwoKeys(t);
    key := if y[0] == n then x else y;
  }

  lemma UnderPath(path: Nibbles, child: Trie, key: Nibbles)
    ensures Lookup(Extension(path, child), path + key) == Lookup(child, key)
  {
    assert (path + key)[|path|..] == key;
  }

  /** Anything but a leaf stores two keys, so it has not the content of a leaf. */
  lemma LeafIsAlone(t: Trie, u: Trie)
    requires t.Leaf? && !u.Leaf? && Compressed(u)
    ensures !SameContent(t, u)
  {
    var fork, above := if u.Branch? then u else u.child, if u.Branch? then [] else u.path;
    var x, y := TwoKeys(fork);
    if u.Extension? {
      UnderPath(u.path, u.child, x);
      UnderPath(u.path, u.child, y);
    } else {
      assert [] + x == x && [] + y == y;
    }
    assert (above + x)[|above|..] == x && (above + y)[|above|..] == y;
    var key := if above + x == t.path then above + y else above + x;
    assert Lookup(u, key).Some? && Lookup(t, key).None?;
  }

  /** No extension has the content of a branch. */
  lemma ForkIsNotShared(t: Trie, u: Trie)
    requires t.Branch? && u.Extension? && Compressed(t) && Compressed(u)
    ensures !SameContent(t, u)
  {
    var key := KeyBeside(t, u.path[0]);
    assert Lookup(u, key).None?;
  }

  /** A longer path would miss keys of the branch under a shorter one. */
  lemma LongerMisses(t: Trie, u: Trie)
    requires t.Extension? && u.Extension? && Compressed(t) && Compressed(u) && |t.path| < |u.path|
    ensures !SameContent(t, u)
  {
    var beside := KeyBeside(t.child, u.path[|t.path|]);
    var key := t.path + beside;
    UnderPath(t.path, t.child, beside);
    assert key[|t.path|..] == beside;
    assert Lookup(t, key).Some? && Lookup(u, key).None?;
  }

  lemma SamePath(t: Trie, u: Trie)
    requires t.Extension? && u.Extension? && Compressed(t) && Compressed(u) && SameContent(t, u)
    ensures t.path == u.path
  {
    if |t.path| != |u.path| {
      if |t.path| < |u.path| {
        LongerMisses(t, u);
      } else {
        LongerMisses(u, t);
      }
    } else {
      var rest := SomeKey(t.child);
      UnderPath(t.path, t.child, rest);
      assert Lookup(u, t.path + rest).Some?;
      assert u.path == (t.path + rest)[..|u.path|] == t.path;
    }
  }

  /** Two compressed tries with one content are the same trie. */
  lemma {:induction false} CompressedUnique(t: Trie, u: Trie)
    requires Compressed(t) && Compressed(u) && SameContent(t, u)
    ensures t == u
    decreases t
  {
    if t.Leaf? {
      if !u.Leaf? {
        LeafIsAlone(t, u);
      } else {
        assert Lookup(t, t.path) == Lookup(u, t.path);
      }
    } else if u.Leaf? {
      LeafIsAlone(u, t);
    } else if t.Extension? {
      if u.Branch? {
        ForkIsNotShared(u, t);
      } else {
        SamePath(t, u);
        ChildContent(t, u);
        CompressedUnique(t.child, u.child);
      }
    } else if u.Extension? {
      ForkIsNotShared(t, u);
    } else {
      assert Lookup(t, []) == Lookup(u, []);
      forall i | 0 <= i < 16 ensures t.children[i] == u.children[i] {
        SlotContent(t, u, i);
        if t.children[i].Occupied? {
          CompressedUnique(t.children[i].node, u.children[i].node);
        }
      }
    }
  }

  lemma ChildContent(t: Trie, u: Trie)
    requires t.Extension? && u.Extension? && t.path == u.path && SameContent(t, u)
    ensures SameContent(t.child, u.child)
  {
    forall key: Nibbles ensures Lookup(t.child, key) == Lookup(u.child, key) {
      UnderPath(t.path, t.child, key);
      UnderPath(u.path, u.child, key);
      assert Lookup(t, t.path + key) == Lookup(u, t.path + key);
    }
  }

  lemma SlotContent(t: Trie, u: Trie, i: nibble)
    requires t.Branch? && u.Branch? && Compressed(t) && Compressed(u) && SameContent(t, u)
    ensures t.children[i].Occupied? <==> u.children[i].Occupied?
    ensures t.children[i].Occupied? ==> SameContent(t.children[i].node, u.children[i].node)
  {
    if t.children[i].Occupied? {
      var key := SlotKey(t.children, t.value, i);
      assert Lookup(u, key).Some?;
    }
    if u.children[i].Occupied? {
      var key := SlotKey(u.children, u.value, i);
      assert Lookup(t, key).Some?;
    }
    if t.children[i].Occupied? {
      forall key: Nibbles ensures Lookup(t.children[i].node, key) == Lookup(u.children[i].node, key) {
        assert ([i] + key)[1..] == key;
        assert Lookup(t, [i] + key) == Lookup(u, [i] + key);
      }
    }
  }

  // ----- the builder -----

  lemma {:induction false} CommonAfter(a: Nibbles, b: Nibbles, n: nat)
    requires n <= Common(a, b)
    ensures Common(a[n..], b[n..]) == Common(a, b) - n
  {
    if n > 0 {
      CommonAfter(a[1..], b[1..], n - 1);
      assert a[1..][n - 1..] == a[n..] && b[1..][n - 1..] == b[n..];
    }
  }

  /** The shared prefix is the longest one: what is left after it shares nothing. */
  lemma {:induction false} SharedAfter(entries: seq<Entry>, depth: nat, n: nat)
    requires entries != [] && Deep(entries, depth) && n <= SharedPrefix(entries, depth)
    requires Deep(entries, depth + n)
    ensures SharedPrefix(entries, depth + n) == SharedPrefix(entries, depth) - n
  {
    if |entries| > 1 {
      var a, b := entries[0].key, entries[|entries| - 1].key;
      SharedAfter(entries[..|entries| - 1], depth, n);
      CommonAfter(a[depth..], b[depth..], n);
      assert a[depth..][n..] == a[depth + n..] && b[depth..][n..] == b[depth + n..];
    }
  }

  /** Where nothing is shared, some entry parts from the first one at once. */
  lemma {:induction false} PartsAtOnce(entries: seq<Entry>, depth: nat) returns (i: nat)
    requires Deep(entries, depth) && |entries| > 1 && SharedPrefix(entries, depth) == 0
    requires |entries[0].key| > depth
    ensures 0 < i < |entries|
    ensures |entries[i].key| == depth || entries[i].key[depth] != entries[0].key[depth]
  {
    var last := |entries| - 1;
    var a, b := entries[0].key[depth..], entries[last].key[depth..];
    if Common(a, b) == 0 {
      i := last;
    } else {
      i := PartsAtOnce(entries[..last], depth);
    }
  }

  lemma EntryOccupies(entries: seq<Entry>, depth: nat, i: nat)
    requires Grouped(entries, depth) && SharedPrefix(entries, depth) == 0 && i < |entries|
    requires |entries[i].key| > depth
    ensures BuildSlots(entries, depth, 0)[entries[i].key[depth]].Occupied?
  {
    var n := entries[i].key[depth];
    BucketContent(entries, depth, n, entries[i]);
    BuildSlotsAt(entries, depth, 0, n);
  }

  lemma EntryEnds(entries: seq<Entry>, depth: nat, i: nat)
    requires Grouped(entries, depth) && i < |entries| && |entries[i].key| == depth
    requires entries[i].value != []
    ensures OwnValue(entries, depth) != []
    ensures forall j :: 0 <= j < |entries| && j != i ==> |entries[j].key| > depth
  {
    forall j | 0 <= j < |entries| && |entries[j].key| == depth ensures j == i {
      EndsOnce(entries, depth, i, j);
    }
    OwnValueOf(entries, depth, entries[i]);
  }

  lemma BuildForks(entries: seq<Entry>, depth: nat)
    requires Grouped(entries, depth) && |entries| > 1 && SharedPrefix(entries, depth) == 0
    requires forall i :: 0 <= i < |entries| ==> entries[i].value != []
    ensures Forks(BuildSlots(entries, depth, 0), OwnValue(entries, depth))
  {
    hide BuildSlots;
    hide OwnValue;
    hide SharedPrefix;
    if |entries[0].key| == depth {
      EntryEnds(entries, depth, 0);
      EntryOccupies(entries, depth, 1);
    } else {
      var i := PartsAtOnce(entries, depth);
      EntryOccupies(entries, depth, 0);
      if |entries[i].key| == depth {
        EntryEnds(entries, depth, i);
      } else {
        EntryOccupies(entries, depth, i);
      }
    }
  }

  /** The builder compresses. */
  lemma {:induction false} BuildCompressed(entries: seq<Entry>, depth: nat)
    requires Grouped(entries, depth)
    requires forall i :: 0 <= i < |entries| ==> entries[i].value != []
    ensures Compressed(Build(entries, depth))
    decreases |entries|, |entries[0].key| - depth
  {
    hide Bucket;
    hide BuildSlots;
    hide SharedPrefix;
    hide OwnValue;
    hide Forks;
    if |entries| > 1 {
      var shared := SharedPrefix(entries, depth);
      if shared > 0 {
        SharedGrouped(entries, depth);
        SharedAfter(entries, depth, shared);
        BuildCompressed(entries, depth + shared);
      } else {
        BuildForks(entries, depth);
        forall i | 0 <= i < 16 && BuildSlots(entries, depth, 0)[i].Occupied?
          ensures Compressed(BuildSlots(entries, depth, 0)[i].node)
        {
          SlotBuilt(entries, depth, i);
          BucketValues(entries, depth, i);
          BuildCompressed(Bucket(entries, depth, i), depth + 1);
        }
      }
    }
  }

  /** What is built from entries is the only compressed trie that holds them and nothing else. */
  lemma BuildIsTheTrie(entries: seq<Entry>, t: Trie)
    requires Grouped(entries, 0) && forall i :: 0 <= i < |entries| ==> entries[i].value != []
    requires Compressed(t)
    requires forall key, value :: Lookup(t, key) == Some(value) <==> Entry(key, value) in entries
    ensures t == Build(entries, 0)
  {
    hide Grouped;
    hide Lookup;
    hide Compressed;
    hide Build;
    var built := Build(entries, 0);
    BuildCompressed(entries, 0);
    forall key: Nibbles ensures Lookup(t, key) == Lookup(built, key) {
      LookupBuilt(entries, key, Lookup(t, key));
      LookupBuilt(entries, key, Lookup(built, key));
    }
    CompressedUnique(t, built);
  }

  lemma LookupBuilt(entries: seq<Entry>, key: Nibbles, found: Option<Bytes>)
    requires Grouped(entries, 0) && forall i :: 0 <= i < |entries| ==> entries[i].value != []
    ensures found.Some? ==>
              (Lookup(Build(entries, 0), key) == found <==> Entry(key, found.value) in entries)
  {
    hide Build;
    hide Lookup;
    if found.Some? {
      BuildContent(entries, 0, key, found.value);
      assert entries[0].key[..0] + key == key;
    }
  }
}
