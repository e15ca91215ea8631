/** The TypeScript trie builder: construction from entries, the hashed-node corpus and the
    inclusion-proof node list. */
module Builder {
  import opened Prelude
  import opened HexPrefix
  import opened Tries

  // ----- grouping entries -----

  /** Two keys agree on their first `n` nibbles. */
  predicate Agree(a: Nibbles, b: Nibbles, n: nat) {
    n <= |a| && n <= |b| && forall i :: 0 <= i < n ==> a[i] == b[i]
  }

  /** Entries with distinct keys that agree on their first `depth` nibbles. */
  ghost predicate Grouped(entries: seq<Entry>, depth: nat) {
    && entries != []
    && Distinct(entries)
    && forall i :: 0 <= i < |entries| ==> Agree(entries[0].key, entries[i].key, depth)
  }

  ghost predicate Distinct(entries: seq<Entry>) {
    forall i, j :: 0 <= i < j < |entries| ==> entries[i].key != entries[j].key
  }

  ghost predicate Deep(entries: seq<Entry>, depth: nat) {
    forall i :: 0 <= i < |entries| ==> depth <= |entries[i].key|
  }

  /** The length of the longest common prefix. */
  function Common(a: Nibbles, b: Nibbles): (n: nat)
    ensures Agree(a, b, n)
    ensures n < |a| && n < |b| ==> a[n] != b[n]
  {
    if a == [] || b == [] || a[0] != b[0] then 0 else 1 + Common(a[1..], b[1..])
  }

  /** How many nibbles after `depth` all entries share. */
  function SharedPrefix(entries: seq<Entry>, depth: nat): (n: nat)
    requires entries != [] && Deep(entries, depth)
    ensures n <= |entries[0].key| - depth
  {
    if |entries| == 1 then |entries[0].key| - depth
    else
      var shared := SharedPrefix(entries[..|entries| - 1], depth);
      var common := Common(entries[0].key[depth..], entries[|entries| - 1].key[depth..]);
      if common < shared then common else shared
  }

  /** The builder's nested loops over entries and nibbles. */
  method FindSharedPrefix(entries: seq<Entry>, depth: nat) returns (shared: nat)
    requires entries != [] && Deep(entries, depth)
    ensures shared == SharedPrefix(entries, depth)
  {
    var first := entries[0].key;
    shared := |first| - depth;
    assert entries[..1] == [entries[0]];
    for i := 1 to |entries|
      invariant shared == SharedPrefix(entries[..i], depth)
    {
      assert entries[..i + 1][..i] == entries[..i];
      shared := CommonWithin(first, entries[i].key, depth, shared);
    }
    assert entries[..|entries|] == entries;
  }

  /** The inner loop: the nibbles after `depth` shared with one more key, at most `shared`. */
  method CommonWithin(first: Nibbles, key: Nibbles, depth: nat, shared: nat) returns (index: nat)
    requires depth <= |first| && depth <= |key| && shared <= |first| - depth
    ensures var common := Common(first[depth..], key[depth..]);
            index == if common < shared then common else shared
  {
    index := 0;
    while index < shared && depth + index < |key| && first[depth + index] == key[depth + index]
      invariant 0 <= index <= shared && depth + index <= |key|
      invariant Agree(first[depth..], key[depth..], index)
    {
      index := index + 1;
    }
    CommonIs(first[depth..], key[depth..], index, shared);
  }

  /** The longest common prefix, cut at a limit. */
  lemma CommonIs(a: Nibbles, b: Nibbles, n: nat, limit: nat)
    requires n <= limit <= |a| && Agree(a, b, n)
    requires n == limit || n == |b| || a[n] != b[n]
    ensures n == if Common(a, b) < limit then Common(a, b) else limit
  {
  }

  lemma AgreeFurther(a: Nibbles, b: Nibbles, depth: nat, n: nat)
    requires Agree(a, b, depth) && Agree(a[depth..], b[depth..], n)
    ensures Agree(a, b, depth + n)
  {
    forall i | 0 <= i < depth + n ensures a[i] == b[i] {
      if i >= depth {
        assert a[depth..][i - depth] == b[depth..][i - depth];
      }
    }
  }

  lemma {:induction false} SharedByAll(entries: seq<Entry>, depth: nat, i: nat)
    requires i < |entries| && Deep(entries, depth)
    requires forall j :: 0 <= j < |entries| ==> Agree(entries[0].key, entries[j].key, depth)
    ensures Agree(entries[0].key, entries[i].key, depth + SharedPrefix(entries, depth))
  {
    var last := |entries| - 1;
    if last > 0 {
      if i < last {
        SharedByAll(entries[..last], depth, i);
      } else {
        AgreeFurther(entries[0].key, entries[i].key, depth, Common(entries[0].key[depth..], entries[i].key[depth..]));
      }
    }
  }

  lemma {:induction false} SharedNibble(entries: seq<Entry>, depth: nat, n: nibble)
    requires entries != [] && Deep(entries, depth)
    requires forall i :: 0 <= i < |entries| ==> Continues(entries[i], depth, n)
    ensures SharedPrefix(entries, depth) > 0
  {
    if |entries| > 1 {
      SharedNibble(entries[..|entries| - 1], depth, n);
      var a, b := entries[0].key[depth..], entries[|entries| - 1].key[depth..];
      assert a[0] == n && b[0] == n;
    }
  }

  /** The entries that continue with a nibble, in order. */
  function Bucket(entries: seq<Entry>, depth: nat, n: nibble): seq<Entry> {
    if entries == [] then []
    else
      var last := entries[|entries| - 1];
      Bucket(entries[..|entries| - 1], depth, n)
      + if Continues(last, depth, n) then [last] else []
  }

  predicate Continues(e: Entry, depth: nat, n: nibble) {
    depth < |e.key| && e.key[depth] == n
  }

  /** The value of the entry that ends here; absent is the empty string. */
  function OwnValue(entries: seq<Entry>, depth: nat): Bytes {
    if entries == [] then []
    else
      var last := entries[|entries| - 1];
      if |last.key| == depth then last.value else OwnValue(entries[..|entries| - 1], depth)
  }

  lemma {:induction false} BucketContent(entries: seq<Entry>, depth: nat, n: nibble, e: Entry)
    ensures e in Bucket(entries, depth, n) <==> e in entries && Continues(e, depth, n)
  {
    if entries != [] {
      var front, last := entries[..|entries| - 1], entries[|entries| - 1];
      BucketContent(front, depth, n, e);
      assert entries == front + [last];
    }
  }

  lemma {:induction false} BucketDistinct(entries: seq<Entry>, depth: nat, n: nibble)
    requires Distinct(entries)
    ensures Distinct(Bucket(entries, depth, n))
  {
    if entries != [] {
      var front, last := entries[..|entries| - 1], entries[|entries| - 1];
      BucketDistinct(front, depth, n);
      var below := Bucket(front, depth, n);
      forall i | 0 <= i < |below| ensures below[i].key != last.key {
        BucketContent(front, depth, n, below[i]);
        var j :| 0 <= j < |front| && front[j] == below[i];
        assert entries[j] == front[j];
      }
    }
  }

  lemma {:induction false} BucketSize(entries: seq<Entry>, depth: nat, n: nibble)
    ensures |Bucket(entries, depth, n)| <= |entries|
    ensures |Bucket(entries, depth, n)| == |entries| ==>
              forall i :: 0 <= i < |entries| ==> Continues(entries[i], depth, n)
  {
    if entries != [] {
      BucketSize(entries[..|entries| - 1], depth, n);
    }
  }

  /** Where entries part, every bucket is a proper part that agrees on one more nibble. */
  lemma BucketGrouped(entries: seq<Entry>, depth: nat, n: nibble)
    requires Grouped(entries, depth) && SharedPrefix(entries, depth) == 0
    requires Bucket(entries, depth, n) != []
    ensures |Bucket(entries, depth, n)| < |entries| && Grouped(Bucket(entries, depth, n), depth + 1)
    ensures Agree(entries[0].key, Bucket(entries, depth, n)[0].key, depth)
    ensures Continues(Bucket(entries, depth, n)[0], depth, n)
  {
    var bucket := Bucket(entries, depth, n);
    BucketSize(entries, depth, n);
    if |bucket| == |entries| {
      SharedNibble(entries, depth, n);
    }
    BucketDistinct(entries, depth, n);
    forall i | 0 <= i < |bucket|
      ensures Agree(entries[0].key, bucket[i].key, depth) && Continues(bucket[i], depth, n)
    {
      BucketContent(entries, depth, n, bucket[i]);
      var j :| 0 <= j < |entries| && entries[j] == bucket[i];
    }
  }

  // ----- building -----

  function Build(entries: seq<Entry>, depth: nat): Trie
    requires Grouped(entries, depth)
    decreases |entries|, |entries[0].key| - depth, 17
  {
    var first := entries[0];
    if |entries| == 1 then Leaf(first.key[depth..], first.value)
    else
      var shared := SharedPrefix(entries, depth);
      if shared > 0 then
        SharedGrouped(entries, depth);
        Extension(first.key[depth..depth + shared], Build(entries, depth + shared))
      else
        Branch(BuildSlots(entries, depth, 0), OwnValue(entries, depth))
  }

  function BuildSlots(entries: seq<Entry>, depth: nat, i: nat): (slots: seq<Slot>)
    requires Grouped(entries, depth) && SharedPrefix(entries, depth) == 0 && i <= 16
    ensures |slots| == 16 - i
    decreases |entries|, |entries[0].key| - depth, 16 - i
  {
    if i == 16 then [] else [BuildSlot(entries, depth, i)] + BuildSlots(entries, depth, i + 1)
  }

  function BuildSlot(entries: seq<Entry>, depth: nat, n: nibble): Slot
    requires Grouped(entries, depth) && SharedPrefix(entries, depth) == 0
    decreases |entries|, |entries[0].key| - depth, 0
  {
    var bucket := Bucket(entries, depth, n);
    if bucket == [] then Vacant
    else
      BucketGrouped(entries, depth, n);
      Occupied(Build(bucket, depth + 1))
  }

  lemma SharedGrouped(entries: seq<Entry>, depth: nat)
    requires Grouped(entries, depth)
    ensures Grouped(entries, depth + SharedPrefix(entries, depth))
  {
    forall i | 0 <= i < |entries|
      ensures Agree(entries[0].key, entries[i].key, depth + SharedPrefix(entries, depth))
    {
      SharedByAll(entries, depth, i);
    }
  }

  lemma {:induction false} BuildSlotsAt(entries: seq<Entry>, depth: nat, from: nat, i: nat)
    requires Grouped(entries, depth) && SharedPrefix(entries, depth) == 0 && from <= i < 16
    ensures BuildSlots(entries, depth, from)[i - from] == BuildSlot(entries, depth, i)
    decreases i - from
  {
    hide BuildSlot;
    hide Grouped;
    hide SharedPrefix;
    if from < i {
      BuildSlotsAt(entries, depth, from + 1, i);
    }
  }

  /** The builder's loops: entries are dealt into buckets, then every bucket is built. */
  method BuildNode(entries: seq<Entry>, depth: nat) returns (t: Trie)
    requires Grouped(entries, depth)
    ensures t == Build(entries, depth)
    decreases |entries|, |entries[0].key| - depth, 1
  {
    hide Bucket;
    hide BuildSlots;
    hide SharedPrefix;
    hide OwnValue;
    var first := entries[0];
    if |entries| == 1 {
      return Leaf(first.key[depth..], first.value);
    }
    var shared := FindSharedPrefix(entries, depth);
    if shared > 0 {
      SharedGrouped(entries, depth);
      var child := BuildNode(entries, depth + shared);
      return Extension(first.key[depth..depth + shared], child);
    }
    var children := BuildChildren(entries, depth);
    t := Branch(children.0, children.1);
  }

  method BuildChildren(entries: seq<Entry>, depth: nat) returns (r: (seq<Slot>, Bytes))
    requires Grouped(entries, depth) && SharedPrefix(entries, depth) == 0
    ensures r == (BuildSlots(entries, depth, 0), OwnValue(entries, depth))
    decreases |entries|, |entries[0].key| - depth, 0
  {
    hide Bucket;
    hide SharedPrefix;
    hide OwnValue;
    var buckets, value := DealBuckets(entries, depth);
    var children: seq<Slot> := [];
    for n := 0 to 16
      invariant |children| == n
      invariant children + BuildSlots(entries, depth, n) == BuildSlots(entries, depth, 0)
    {
      ghost var rest := BuildSlots(entries, depth, n + 1);
      var slot := Vacant;
      if n in buckets {
        BucketGrouped(entries, depth, n);
        var child := BuildNode(buckets[n], depth + 1);
        slot := Occupied(child);
      }
      assert slot == BuildSlot(entries, depth, n);
      assert children + ([slot] + rest) == children + [slot] + rest;
      children := children + [slot];
    }
    assert children + [] == children;
    r := (children, value);
  }

  /** Deals entries into buckets by their next nibble; an entry that ends here gives the value. */
  method DealBuckets(entries: seq<Entry>, depth: nat) returns (buckets: map<nibble, seq<Entry>>, value: Bytes)
    requires Deep(entries, depth)
    ensures value == OwnValue(entries, depth)
    ensures Dealt(entries, depth, buckets)
  {
    buckets, value := map[], [];
    for i := 0 to |entries|
      invariant value == OwnValue(entries[..i], depth)
      invariant Dealt(entries[..i], depth, buckets)
    {
      var entry := entries[i];
      assert entries[..i + 1][..i] == entries[..i];
      if |entry.key| == depth {
        value := entry.value;
      } else {
        var n := entry.key[depth];
        buckets := buckets[n := (if n in buckets then buckets[n] else []) + [entry]];
      }
    }
    assert entries[..|entries|] == entries;
  }

  ghost predicate Dealt(entries: seq<Entry>, depth: nat, buckets: map<nibble, seq<Entry>>) {
    forall n: nibble ::
      && (n in buckets <==> Bucket(entries, depth, n) != [])
      && (n in buckets ==> buckets[n] == Bucket(entries, depth, n))
  }
}
