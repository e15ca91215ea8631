/** Block and context frames: length-prefixed blobs with one encoding per content. */
module Framing {
  import opened Prelude
  import opened ReceiptWalk
  import opened LookupProof
  import opened HashOrder
  import BigEndian

  datatype FramingError = Truncated | TrailingBytes | NodeCount | NodeOrder | DuplicateNode | Overflow
    | ContextLength | MagicOrVersion | BadTerms

  // ----- blobs -----

  function U64Bytes(n: nat): (bs: Bytes)
    ensures |bs| == 8
  {
    BigEndian.Fixed(n, 8)
  }

  function Blob(b: Bytes): Bytes {
    U64Bytes(|b|) + b
  }

  function Blobs(bs: seq<Bytes>): Bytes {
    if bs == [] then [] else Blobs(bs[..|bs| - 1]) + Blob(bs[|bs| - 1])
  }

  predicate AllSized(bs: seq<Bytes>) {
    forall i :: 0 <= i < |bs| ==> |bs[i]| < U64_LIMIT
  }

  lemma AllSizedAppend(front: seq<Bytes>, last: Bytes)
    ensures AllSized(front + [last]) <==> AllSized(front) && |last| < U64_LIMIT
  {
    var bs := front + [last];
    assert bs[|front|] == last;
    if AllSized(bs) {
      forall i | 0 <= i < |front| ensures |front[i]| < U64_LIMIT {
        assert bs[i] == front[i];
      }
    }
  }

  function TakeU64(bytes: Bytes): Option<(u64, Bytes)> {
    if |bytes| < 8 then None
    else
      U64Value(bytes[..8]);
      Some((BigEndian.Value(bytes[..8]), bytes[8..]))
  }

  lemma U64Value(bs: Bytes)
    requires |bs| == 8
    ensures BigEndian.Value(bs) < U64_LIMIT
  {
    BigEndian.ValueBound(bs);
    BigEndian.PowersOf256();
  }

  function TakeBlob(bytes: Bytes): Option<(Bytes, Bytes)> {
    var (n, rest) :- TakeU64(bytes);
    if n > |rest| then None else Some((rest[..n], rest[n..]))
  }

  function TakeBlobs(bytes: Bytes, n: nat): (r: Option<(seq<Bytes>, Bytes)>)
    ensures r.Some? ==> |r.value.0| == n
  {
    if n == 0 then Some(([], bytes))
    else
      var (front, middle) :- TakeBlobs(bytes, n - 1);
      var (last, rest) :- TakeBlob(middle);
      Some((front + [last], rest))
  }

  lemma U64Canonical(bytes: Bytes, n: u64, rest: Bytes)
    ensures TakeU64(bytes) == Some((n, rest)) <==> bytes == U64Bytes(n) + rest
  {
    BigEndian.PowersOf256();
    BigEndian.ValueOfFixed(n, 8);
    if |bytes| >= 8 {
      BigEndian.FixedOfValue(bytes[..8]);
      assert bytes == bytes[..8] + bytes[8..];
    }
    assert (U64Bytes(n) + rest)[..8] == U64Bytes(n) && (U64Bytes(n) + rest)[8..] == rest;
    hide BigEndian.Fixed;
    hide BigEndian.Value;
    hide BigEndian.Pow256;
  }

  lemma BlobCanonical(bytes: Bytes, b: Bytes, rest: Bytes)
    ensures TakeBlob(bytes) == Some((b, rest)) <==> |b| < U64_LIMIT && bytes == Blob(b) + rest
  {
    hide TakeU64;
    hide U64Bytes;
    if |b| < U64_LIMIT {
      U64Canonical(bytes, |b|, b + rest);
      assert (b + rest)[..|b|] == b && (b + rest)[|b|..] == rest;
      assert U64Bytes(|b|) + (b + rest) == Blob(b) + rest;
    }
    if TakeU64(bytes).Some? {
      var (n, tail) := TakeU64(bytes).value;
      U64Canonical(bytes, n, tail);
      assert n <= |tail| ==> tail == tail[..n] + tail[n..];
    }
  }

  lemma {:induction false} BlobsCanonical(bytes: Bytes, n: nat, bs: seq<Bytes>, rest: Bytes)
    ensures TakeBlobs(bytes, n) == Some((bs, rest)) <==> |bs| == n && AllSized(bs) && bytes == Blobs(bs) + rest
  {
    hide TakeBlob;
    hide Blob;
    if n == 0 {
      assert bs == [] ==> Blobs(bs) + rest == rest;
    } else {
      if |bs| == n {
        var front, last := bs[..n - 1], bs[n - 1];
        assert bs == front + [last];
        AllSizedAppend(front, last);
        BlobsCanonical(bytes, n - 1, front, Blob(last) + rest);
        BlobCanonical(Blob(last) + rest, last, rest);
        assert Blobs(front) + (Blob(last) + rest) == Blobs(bs) + rest;
        if TakeBlobs(bytes, n - 1).Some? {
          var (read, middle) := TakeBlobs(bytes, n - 1).value;
          BlobCanonical(middle, last, rest);
          if TakeBlob(middle).Some? {
            var b := TakeBlob(middle).value.0;
            assert (read + [b])[..n - 1] == read && (read + [b])[n - 1] == b;
          }
        }
      }
    }
  }

  // ----- block frames -----

  /** The frame of a header and a list of corpus nodes. */
  function FrameBytes(header: Bytes, nodes: seq<Bytes>): Bytes {
    Blob(header) + (U64Bytes(|nodes|) + Blobs(nodes))
  }

  /** Every length has a 64-bit form. */
  predicate Framable(header: Bytes, nodes: seq<Bytes>) {
    |header| < U64_LIMIT && |nodes| < U64_LIMIT && AllSized(nodes)
  }

  /** The header and the corpus a byte string frames, if any. */
  ghost function BlockOf(H: Keccak, bytes: Bytes): Option<(Bytes, seq<Bytes>)> {
    var (header, rest) :- TakeBlob(bytes);
    var (count, body) :- TakeU64(rest);
    var (nodes, end) :- TakeBlobs(body, count);
    if end != [] || !HashAscending(H, nodes) then None else Some((header, nodes))
  }

  /** One frame per header and ascending corpus; one header and corpus per accepted frame. */
  lemma FrameCanonical(H: Keccak, bytes: Bytes, header: Bytes, nodes: seq<Bytes>)
    ensures BlockOf(H, bytes) == Some((header, nodes)) <==>
            Framable(header, nodes) && HashAscending(H, nodes) && bytes == FrameBytes(header, nodes)
  {
    hide TakeBlob;
    hide TakeU64;
    hide TakeBlobs;
    hide HashAscending;
    hide Blob;
    hide Blobs;
    hide U64Bytes;
    if Framable(header, nodes) && HashAscending(H, nodes) && bytes == FrameBytes(header, nodes) {
      BlobCanonical(bytes, header, U64Bytes(|nodes|) + Blobs(nodes));
      U64Canonical(U64Bytes(|nodes|) + Blobs(nodes), |nodes|, Blobs(nodes));
      assert Blobs(nodes) + [] == Blobs(nodes);
      BlobsCanonical(Blobs(nodes), |nodes|, nodes, []);
    }
    if BlockOf(H, bytes) == Some((header, nodes)) {
      var rest := TakeBlob(bytes).value.1;
      var body := TakeU64(rest).value.1;
      BlobCanonical(bytes, header, rest);
      U64Canonical(rest, |nodes|, body);
      BlobsCanonical(body, |nodes|, nodes, []);
      assert Blobs(nodes) + [] == Blobs(nodes);
    }
  }

  // ----- the frame reader -----

  class FrameReader {
    var remaining: Bytes

    constructor (bytes: Bytes)
      ensures remaining == bytes
    {
      remaining := bytes;
    }

    /** The next `n` bytes; a short input leaves the reader unchanged. */
    method Take(n: nat) returns (r: Result<Bytes, FramingError>)
      modifies this
      ensures n <= |old(remaining)| ==> r == Ok(old(remaining)[..n]) && remaining == old(remaining)[n..]
      ensures n > |old(remaining)| ==> r == Err(Truncated) && remaining == old(remaining)
    {
      if n > |remaining| {
        return Err(Truncated);
      }
      r := Ok(remaining[..n]);
      remaining := remaining[n..];
    }

    method U64() returns (r: Result<u64, FramingError>)
      modifies this
      ensures match TakeU64(old(remaining))
              case Some((n, rest)) => r == Ok(n) && remaining == rest
              case None => r == Err(Truncated)
    {
      var bytes :- Take(8);
      U64Value(bytes);
      r := Ok(BigEndian.Value(bytes));
    }

    method Blob() returns (r: Result<Bytes, FramingError>)
      modifies this
      ensures match TakeBlob(old(remaining))
              case Some((b, rest)) => r == Ok(b) && remaining == rest
              case None => r == Err(Truncated)
    {
      hide TakeU64;
      var n :- U64();
      r := Take(n);
    }
  }

  /** Every blob takes eight bytes, so an impossible count is found before reading. */
  lemma {:induction false} BlobsNeedRoom(bytes: Bytes, n: nat)
    ensures TakeBlobs(bytes, n).Some? ==> 8 * n + |TakeBlobs(bytes, n).value.1| <= |bytes|
  {
    if n > 0 {
      BlobsNeedRoom(bytes, n - 1);
    }
  }

  lemma AscendAppend(H: Keccak, nodes: seq<Bytes>, node: Bytes)
    requires HashAscending(H, nodes) && nodes != []
    ensures HashAscending(H, nodes + [node]) <==> LexLess(H(nodes[|nodes| - 1]), H(node))
  {
    var all, k := nodes + [node], |nodes|;
    assert all[k] == node && all[k - 1] == nodes[k - 1];
    if LexLess(H(nodes[k - 1]), H(node)) {
      forall i, j | 0 <= i < j < |all| ensures LexLess(H(all[i]), H(all[j])) {
        if j == k && i < k - 1 {
          LexTransitive(H(nodes[i]), H(nodes[k - 1]), H(node));
        }
      }
    }
  }

  lemma AscendFront(H: Keccak, nodes: seq<Bytes>, k: nat)
    requires k <= |nodes|
    ensures HashAscending(H, nodes) ==> HashAscending(H, nodes[..k])
  {
  }

  lemma {:induction false} BlobsFront(bytes: Bytes, k: nat, n: nat)
    requires k <= n && TakeBlobs(bytes, n).Some?
    ensures TakeBlobs(bytes, k).Some? && TakeBlobs(bytes, k).value.0 == TakeBlobs(bytes, n).value.0[..k]
  {
    hide TakeBlob;
    if k < n {
      BlobsFront(bytes, k, n - 1);
      assert TakeBlobs(bytes, n).value.0[..n - 1] == TakeBlobs(bytes, n - 1).value.0;
    }
  }

  /** Reads `count` nodes in strictly ascending hash order. */
  method ReadNodes(H: Keccak, reader: FrameReader, count: nat) returns (r: Result<seq<Bytes>, FramingError>)
    modifies reader
    ensures var read := TakeBlobs(old(reader.remaining), count);
            && (r.Ok? <==> read.Some? && HashAscending(H, read.value.0))
            && (r.Ok? ==> r.value == read.value.0 && reader.remaining == read.value.1)
  {
    hide TakeBlob;
    hide HashAscending;
    hide LexLess;
    ghost var body := reader.remaining;
    var nodes: seq<Bytes> := [];
    var previous: Option<Hash> := None;
    var i := 0;
    NothingAscends(H);
    while i < count
      invariant i <= count && TakeBlobs(body, i) == Some((nodes, reader.remaining))
      invariant HashAscending(H, nodes)
      invariant previous == if nodes == [] then None else Some(H(nodes[|nodes| - 1]))
    {
      FrontDecides(H, body, i + 1, count);
      var next := reader.Blob();
      if next.Err? {
        return Err(next.error);
      }
      var node := next.value;
      var hash := H(node);
      NextAscends(H, nodes, node);
      if previous.Some? && !LexLess(previous.value, hash) {
        return Err(NodeOrder);
      }
      previous := Some(hash);
      nodes := nodes + [node];
      i := i + 1;
    }
    r := Ok(nodes);
  }

  lemma NothingAscends(H: Keccak)
    ensures HashAscending(H, [])
  {
  }

  lemma NextAscends(H: Keccak, nodes: seq<Bytes>, node: Bytes)
    requires HashAscending(H, nodes)
    ensures HashAscending(H, nodes + [node]) <==> nodes == [] || LexLess(H(nodes[|nodes| - 1]), H(node))
  {
    if nodes != [] {
      AscendAppend(H, nodes, node);
    }
  }

  /** A failure in the first `k` nodes is a failure of all `n`. */
  lemma FrontDecides(H: Keccak, body: Bytes, k: nat, n: nat)
    requires k <= n
    ensures TakeBlobs(body, n).Some? ==> TakeBlobs(body, k).Some?
    ensures TakeBlobs(body, n).Some? && HashAscending(H, TakeBlobs(body, n).value.0) ==>
              HashAscending(H, TakeBlobs(body, k).value.0)
  {
    if TakeBlobs(body, n).Some? {
      BlobsFront(body, k, n);
      AscendFront(H, TakeBlobs(body, n).value.0, k);
    }
  }

  method DecodeBlock(H: Keccak, bytes: Bytes) returns (r: Result<(Bytes, seq<Bytes>), FramingError>)
    ensures BlockOf(H, bytes) == if r.Ok? then Some(r.value) else None
  {
    hide TakeBlob;
    hide TakeU64;
    hide TakeBlobs;
    hide HashAscending;
    var reader := new FrameReader(bytes);
    var header := reader.Blob();
    if header.Err? {
      return Err(header.error);
    }
    var count := reader.U64();
    if count.Err? {
      return Err(count.error);
    }
    BlobsNeedRoom(reader.remaining, count.value);
    if count.value > |reader.remaining| / 8 {
      return Err(NodeCount);
    }
    var nodes := ReadNodes(H, reader, count.value);
    if nodes.Err? {
      return Err(nodes.error);
    }
    if reader.remaining != [] {
      return Err(TrailingBytes);
    }
    r := Ok((header.value, nodes.value));
  }

  // ----- the frame writer -----

  /** Sorts the nodes by hash and refuses two nodes with one hash. */
  method EncodeBlock(H: Keccak, header: Bytes, nodes: seq<Bytes>) returns (r: Result<Bytes, FramingError>)
    ensures r.Ok? <==> DistinctHashes(H, nodes) && Framable(header, nodes)
    ensures r.Ok? ==> r.value == FrameBytes(header, SortByHash(H, nodes))
    ensures r.Ok? ==> BlockOf(H, r.value) == Some((header, SortByHash(H, nodes)))
  {
    hide SortByHash;
    hide Blob;
    hide HashAscending;
    hide DistinctHashes;
    hide BlockOf;
    hide LexLess;
    var ordered := SortByHash(H, nodes);
    SortOrdered(H, nodes);
    SortElements(H, nodes);
    SortedSizes(H, nodes);
    if exists i :: 0 <= i < |ordered| - 1 && H(ordered[i]) == H(ordered[i + 1]) {
      SortDistinct(H, nodes);
      RepeatedNeighbour(H, ordered);
      return Err(DuplicateNode);
    }
    NeighboursDecide(H, ordered);
    AscendingIsDistinct(H, ordered);
    DistinctIffMultiset(H, ordered, nodes);
    if |header| >= U64_LIMIT || |ordered| >= U64_LIMIT {
      return Err(Overflow);
    }
    var out := Blob(header) + U64Bytes(|ordered|);
    ghost var head := out;
    for i := 0 to |ordered|
      invariant out == head + Blobs(ordered[..i])
      invariant AllSized(ordered[..i])
    {
      assert ordered[..i + 1][..i] == ordered[..i];
      if |ordered[i]| >= U64_LIMIT {
        return Err(Overflow);
      }
      assert head + Blobs(ordered[..i]) + Blob(ordered[i]) == head + (Blobs(ordered[..i]) + Blob(ordered[i]));
      out := out + Blob(ordered[i]);
    }
    assert ordered[..|ordered|] == ordered;
    assert out == FrameBytes(header, ordered);
    FrameCanonical(H, out, header, ordered);
    r := Ok(out);
  }

  lemma SortedSizes(H: Keccak, nodes: seq<Bytes>)
    ensures AllSized(SortByHash(H, nodes)) <==> AllSized(nodes)
    ensures |SortByHash(H, nodes)| == |nodes|
  {
    hide SortByHash;
    SortElements(H, nodes);
    var sorted := SortByHash(H, nodes);
    forall i | 0 <= i < |nodes| ensures nodes[i] in sorted {
      assert nodes[i] in Elements(nodes);
    }
    forall i | 0 <= i < |sorted| ensures sorted[i] in nodes {
      assert sorted[i] in Elements(sorted);
    }
  }

  lemma SortDistinct(H: Keccak, nodes: seq<Bytes>)
    ensures DistinctHashes(H, nodes) ==> DistinctHashes(H, SortByHash(H, nodes))
  {
    if DistinctHashes(H, nodes) {
      SortAscending(H, nodes);
    }
  }

  lemma RepeatedNeighbour(H: Keccak, nodes: seq<Bytes>)
    requires exists i :: 0 <= i < |nodes| - 1 && H(nodes[i]) == H(nodes[i + 1])
    ensures !DistinctHashes(H, nodes)
  {
  }
}
