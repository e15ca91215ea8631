/** Node lists in ascending hash order: the one canonical order of a corpus. */
module HashOrder {
  import opened Prelude
  import opened Tries
  import opened LookupProof
  import opened ReceiptWalk

  ghost predicate HashAscending(H: Keccak, nodes: seq<Bytes>) {
    forall i, j :: 0 <= i < j < |nodes| ==> LexLess(H(nodes[i]), H(nodes[j]))
  }

  /** Ascending, equal hashes allowed. */
  ghost predicate HashOrdered(H: Keccak, nodes: seq<Bytes>) {
    forall i, j :: 0 <= i < j < |nodes| ==> !LexLess(H(nodes[j]), H(nodes[i]))
  }

  function InsertByHash(H: Keccak, node: Bytes, sorted: seq<Bytes>): seq<Bytes> {
    if sorted == [] || !LexLess(H(sorted[0]), H(node)) then [node] + sorted
    else [sorted[0]] + InsertByHash(H, node, sorted[1..])
  }

  function SortByHash(H: Keccak, nodes: seq<Bytes>): seq<Bytes> {
    if nodes == [] then [] else InsertByHash(H, nodes[0], SortByHash(H, nodes[1..]))
  }

  lemma {:induction false} InsertOrdered(H: Keccak, node: Bytes, sorted: seq<Bytes>)
    requires HashOrdered(H, sorted)
    ensures HashOrdered(H, InsertByHash(H, node, sorted))
    ensures multiset(InsertByHash(H, node, sorted)) == multiset(sorted) + multiset{node}
  {
    var out := InsertByHash(H, node, sorted);
    if sorted == [] || !LexLess(H(sorted[0]), H(node)) {
      forall i, j | 0 <= i < j < |out| ensures !LexLess(H(out[j]), H(out[i])) {
        if i == 0 && j > 1 {
          BelowFirst(H, node, sorted, j - 1);
        }
      }
    } else {
      var rest := InsertByHash(H, node, sorted[1..]);
      InsertOrdered(H, node, sorted[1..]);
      assert sorted == [sorted[0]] + sorted[1..];
      forall j | 0 <= j < |rest| ensures !LexLess(H(rest[j]), H(sorted[0])) {
        assert rest[j] in multiset(rest);
        if rest[j] == node {
          if LexLess(H(node), H(sorted[0])) {
            LexTransitive(H(sorted[0]), H(node), H(sorted[0]));
            LexIrreflexive(H(sorted[0]));
          }
        } else {
          assert rest[j] in sorted[1..];
        }
      }
    }
  }

  lemma BelowFirst(H: Keccak, node: Bytes, sorted: seq<Bytes>, j: nat)
    requires HashOrdered(H, sorted) && 0 < j < |sorted|
    requires !LexLess(H(sorted[0]), H(node))
    ensures !LexLess(H(sorted[j]), H(node))
  {
    if LexLess(H(sorted[j]), H(node)) {
      LexTotal(H(sorted[0]), H(sorted[j]));
      if LexLess(H(sorted[0]), H(sorted[j])) {
        LexTransitive(H(sorted[0]), H(sorted[j]), H(node));
      }
    }
  }

  /** Sorting permutes and orders. */
  lemma {:induction false} SortOrdered(H: Keccak, nodes: seq<Bytes>)
    ensures HashOrdered(H, SortByHash(H, nodes))
    ensures multiset(SortByHash(H, nodes)) == multiset(nodes)
  {
    if nodes != [] {
      SortOrdered(H, nodes[1..]);
      InsertOrdered(H, nodes[0], SortByHash(H, nodes[1..]));
      assert nodes == [nodes[0]] + nodes[1..];
    }
  }

  lemma SortElements(H: Keccak, nodes: seq<Bytes>)
    ensures Elements(SortByHash(H, nodes)) == Elements(nodes)
    ensures |SortByHash(H, nodes)| == |nodes|
  {
    SortOrdered(H, nodes);
    var sorted := SortByHash(H, nodes);
    forall b ensures b in sorted <==> b in nodes {
      assert b in sorted <==> b in multiset(sorted);
      assert b in nodes <==> b in multiset(nodes);
    }
    assert |sorted| == |multiset(sorted)| == |multiset(nodes)| == |nodes|;
  }

  /** Sorted lists without equal neighbours have no equal hashes at all. */
  lemma {:induction false} NeighboursDecide(H: Keccak, nodes: seq<Bytes>)
    requires HashOrdered(H, nodes)
    requires forall i :: 0 <= i < |nodes| - 1 ==> H(nodes[i]) != H(nodes[i + 1])
    ensures HashAscending(H, nodes)
  {
    if |nodes| > 1 {
      var front := nodes[..|nodes| - 1];
      NeighboursDecide(H, front);
      var last := nodes[|nodes| - 1];
      forall i | 0 <= i < |front| ensures LexLess(H(nodes[i]), H(last)) {
        var k := |front| - 1;
        LexTotal(H(nodes[k]), H(nodes[k + 1]));
        if i < k {
          assert LexLess(H(front[i]), H(front[k]));
          LexTransitive(H(nodes[i]), H(nodes[k]), H(last));
        }
      }
    }
  }

  lemma AscendingIsDistinct(H: Keccak, nodes: seq<Bytes>)
    requires HashAscending(H, nodes)
    ensures DistinctHashes(H, nodes)
  {
    forall i, j | 0 <= i < j < |nodes| ensures H(nodes[i]) != H(nodes[j]) {
      LexIrreflexive(H(nodes[i]));
    }
  }

  lemma {:induction false} DistinctIffMultiset(H: Keccak, a: seq<Bytes>, b: seq<Bytes>)
    requires multiset(a) == multiset(b) && DistinctHashes(H, a)
    ensures DistinctHashes(H, b)
  {
    forall i, j | 0 <= i < j < |b| ensures H(b[i]) != H(b[j]) {
      if H(b[i]) == H(b[j]) {
        assert b[i] in multiset(a) && b[j] in multiset(a);
        if b[i] == b[j] {
          Twice(b, i, j);
          Once(H, a, b[i]);
        }
      }
    }
  }

  lemma Twice(b: seq<Bytes>, i: nat, j: nat)
    requires i < j < |b| && b[i] == b[j]
    ensures multiset(b)[b[i]] >= 2
  {
    assert b == b[..i] + [b[i]] + b[i + 1..j] + [b[j]] + b[j + 1..];
  }

  lemma {:induction false} Once(H: Keccak, a: seq<Bytes>, x: Bytes)
    requires DistinctHashes(H, a)
    ensures multiset(a)[x] <= 1
  {
    if a != [] {
      var front, last := a[..|a| - 1], a[|a| - 1];
      Once(H, front, x);
      assert a == front + [last];
      forall i | 0 <= i < |front| ensures front[i] != last {
        assert a[i] == front[i] && H(a[i]) != H(a[|a| - 1]);
      }
      assert last !in multiset(front);
    }
  }

  /** Sorting a list with distinct hashes makes it strictly ascending. */
  lemma SortAscending(H: Keccak, nodes: seq<Bytes>)
    requires DistinctHashes(H, nodes)
    ensures HashAscending(H, SortByHash(H, nodes)) && DistinctHashes(H, SortByHash(H, nodes))
  {
    var sorted := SortByHash(H, nodes);
    SortOrdered(H, nodes);
    DistinctIffMultiset(H, nodes, sorted);
    NeighboursDecide(H, sorted);
  }

  /** One set of nodes has one ascending order. */
  lemma {:induction false} AscendingUnique(H: Keccak, a: seq<Bytes>, b: seq<Bytes>)
    requires HashAscending(H, a) && HashAscending(H, b) && Elements(a) == Elements(b)
    ensures a == b
  {
    var x, y := Tagged(H, a), Tagged(H, b);
    TaggedIncreasing(H, a);
    TaggedIncreasing(H, b);
    TaggedElements(H, a, b);
    TaggedElements(H, b, a);
    IncreasingUnique(x, y);
    forall i | 0 <= i < |a| ensures a[i] == b[i] {
      assert x[i].value == y[i].value;
    }
  }

  ghost function Tagged(H: Keccak, nodes: seq<Bytes>): seq<Entry> {
    seq(|nodes|, i requires 0 <= i < |nodes| => Entry(NibblesOf(H(nodes[i])), nodes[i]))
  }

  lemma TaggedIncreasing(H: Keccak, nodes: seq<Bytes>)
    requires HashAscending(H, nodes)
    ensures Increasing(Tagged(H, nodes))
  {
    forall i, j | 0 <= i < j < |nodes| ensures LexLess(Tagged(H, nodes)[i].key, Tagged(H, nodes)[j].key) {
      NibbleOrder(H(nodes[i]), H(nodes[j]));
    }
  }

  lemma TaggedElements(H: Keccak, a: seq<Bytes>, b: seq<Bytes>)
    requires Elements(a) <= Elements(b)
    ensures forall e :: e in Tagged(H, a) ==> e in Tagged(H, b)
  {
    forall e | e in Tagged(H, a) ensures e in Tagged(H, b) {
      assert e.value in Elements(a);
      var j :| 0 <= j < |b| && b[j] == e.value;
      assert Tagged(H, b)[j] == e;
    }
  }
}
