/** Splitting swap proofs into gas-bounded batches: the greedy split and its optimality. */
module Batching {
  import opened Prelude

  const BASE_GAS: nat := 36000
  const PER_PROOF_GAS: nat := 170000
  const PER_BYTE_GAS: nat := 16
  const NODE_OVERHEAD_BYTES: nat := 64
  const CALLDATA_BASE_BYTES: nat := 224
  const MAX_BATCH_PROOFS: nat := 64
  const MIN_BUDGET: nat := 206000
  const MAX_SAFE_INTEGER: nat := 0x1f_ffff_ffff_ffff

  /** The proof nodes are all that batching looks at; the swap key names the proof. */
  datatype SwapProof = SwapProof(swapKey: Bytes, receiptProof: seq<Bytes>)

  datatype Batch = Batch(proofs: seq<SwapProof>, estimatedGas: nat)

  function ProofBytes(nodes: seq<Bytes>): nat {
    if nodes == [] then CALLDATA_BASE_BYTES
    else ProofBytes(nodes[..|nodes| - 1]) + |nodes[|nodes| - 1]| + NODE_OVERHEAD_BYTES
  }

  function Gas(p: SwapProof): nat {
    PER_PROOF_GAS + ProofBytes(p.receiptProof) * PER_BYTE_GAS
  }

  /** What one proof is charged: a fixed amount, and for each node its bytes and an overhead. */
  lemma GasCharge(p: SwapProof, node: Bytes)
    ensures Gas(SwapProof(p.swapKey, [])) == 173584
    ensures Gas(SwapProof(p.swapKey, p.receiptProof + [node])) == Gas(p) + 16 * (|node| + 64)
  {
    assert (p.receiptProof + [node])[..|p.receiptProof|] == p.receiptProof;
  }

  function GasSum(proofs: seq<SwapProof>): nat {
    if proofs == [] then 0 else GasSum(proofs[..|proofs| - 1]) + Gas(proofs[|proofs| - 1])
  }

  function Joined(batches: seq<Batch>): seq<SwapProof> {
    if batches == [] then [] else batches[0].proofs + Joined(batches[1..])
  }

  /** A batch a caller can submit. */
  predicate Submittable(b: Batch, budget: nat) {
    && 0 < |b.proofs| <= MAX_BATCH_PROOFS
    && b.estimatedGas == BASE_GAS + GasSum(b.proofs) <= budget
  }

  /** An order-preserving split into submittable batches. */
  ghost predicate Splits(batches: seq<Batch>, proofs: seq<SwapProof>, budget: nat) {
    Joined(batches) == proofs && forall i :: 0 <= i < |batches| ==> Submittable(batches[i], budget)
  }

  /** Whether the batch cannot take the proof as well. */
  predicate Full(b: Batch, next: SwapProof, budget: nat) {
    |b.proofs| == MAX_BATCH_PROOFS || b.estimatedGas + Gas(next) > budget
  }

  predicate Followed(b: Batch, after: Batch, budget: nat) {
    after.proofs != [] && Full(b, after.proofs[0], budget)
  }

  /** Every batch but the last is too full for the first proof after it. */
  ghost predicate Greedy(batches: seq<Batch>, budget: nat) {
    forall i, j :: 0 <= i < j < |batches| && j == i + 1 ==> Followed(batches[i], batches[j], budget)
  }

  lemma {:induction false} GasSumConcat(a: seq<SwapProof>, b: seq<SwapProof>)
    ensures GasSum(a + b) == GasSum(a) + GasSum(b)
  {
    hide Gas;
    if b == [] {
      assert a + b == a;
    } else {
      GasSumConcat(a, b[..|b| - 1]);
      assert (a + b)[..|a + b| - 1] == a + b[..|b| - 1];
    }
  }

  lemma {:induction false} JoinedAppend(batches: seq<Batch>, b: Batch)
    ensures Joined(batches + [b]) == Joined(batches) + b.proofs
  {
    if batches == [] {
      assert [] + [b] == [b];
      assert [b][1..] == [];
    } else {
      JoinedAppend(batches[1..], b);
      assert (batches + [b])[1..] == batches[1..] + [b];
    }
  }

  // ----- no split has fewer batches -----

  /** A batch of another split that reaches past the end of a full batch, having begun no later, would
      exceed a limit. */
  lemma CannotReachPast(full: Batch, next: SwapProof, other: Batch, lead: seq<SwapProof>, rest: seq<SwapProof>, budget: nat)
    requires Submittable(full, budget) && Full(full, next, budget)
    requires other.proofs == lead + full.proofs + [next] + rest
    ensures !Submittable(other, budget)
  {
    GasSumConcat(lead + full.proofs + [next], rest);
    GasSumConcat(lead + full.proofs, [next]);
    GasSumConcat(lead, full.proofs);
    SingleGas(next);
    hide Gas;
    hide GasSum;
  }

  lemma SingleGas(p: SwapProof)
    ensures GasSum([p]) == Gas(p)
  {
    assert [p][..0] == [];
  }

  /** A submittable batch that begins no later than a full one ends no later. */
  lemma NotPast(
      g: Batch, next: SwapProof, o: Batch, lead: seq<SwapProof>, behind: seq<SwapProof>, tail: seq<SwapProof>,
      budget: nat)
    requires Submittable(g, budget) && Full(g, next, budget) && Submittable(o, budget)
    requires behind == lead + g.proofs + [next] + tail && o.proofs <= behind
    ensures |o.proofs| <= |lead| + |g.proofs|
  {
    hide Submittable;
    hide Full;
    var k := |lead| + |g.proofs|;
    if |o.proofs| > k {
      assert behind[..k + 1] == lead + g.proofs + [next];
      assert o.proofs == behind[..|o.proofs|];
      assert o.proofs == behind[..k + 1] + o.proofs[k + 1..];
      CannotReachPast(g, next, o, lead, o.proofs[k + 1..], budget);
    }
  }

  lemma FirstBatch(batches: seq<Batch>, proofs: seq<SwapProof>, budget: nat)
    requires Splits(batches, proofs, budget) && batches != []
    ensures Submittable(batches[0], budget) && batches[0].proofs != []
    ensures proofs == batches[0].proofs + Joined(batches[1..])
    ensures Splits(batches[1..], Joined(batches[1..]), budget)
  {
  }

  /** The greedy split of what remains, once that is no more than what another split still has to
      cover, uses no more batches. */
  lemma {:induction false} StaysAhead(
      greedy: seq<Batch>, ahead: seq<SwapProof>, other: seq<Batch>, behind: seq<SwapProof>, lead: seq<SwapProof>,
      budget: nat)
    requires Splits(greedy, ahead, budget) && Greedy(greedy, budget)
    requires Splits(other, behind, budget) && behind == lead + ahead
    ensures |greedy| <= |other|
    decreases |greedy|
  {
    hide Submittable;
    hide Full;
    if greedy != [] {
      FirstBatch(greedy, ahead, budget);
      assert behind != [];
      FirstBatch(other, behind, budget);
      if |greedy| > 1 {
        var g, o, after := greedy[0], other[0], Joined(greedy[1..]);
        FirstBatch(greedy[1..], after, budget);
        var next := after[0];
        assert next == greedy[1].proofs[0] && Followed(greedy[0], greedy[1], budget);
        assert after == [next] + after[1..];
        assert behind == lead + g.proofs + [next] + after[1..];
        NotPast(g, next, o, lead, behind, after[1..], budget);
        var left := (lead + g.proofs)[|o.proofs|..];
        assert behind == (lead + g.proofs) + after;
        assert behind[|o.proofs|..] == left + after;
        assert behind[|o.proofs|..] == Joined(other[1..]);
        GreedyTail(greedy, budget);
        StaysAhead(greedy[1..], after, other[1..], Joined(other[1..]), left, budget);
      }
    }
  }

  lemma GreedyTail(batches: seq<Batch>, budget: nat)
    requires Greedy(batches, budget) && batches != []
    ensures Greedy(batches[1..], budget)
  {
    hide Followed;
  }

  // ----- the greedy loop -----

  /** Batches closed so far, and the open one. */
  ghost predicate Packed(done: seq<Batch>, open: Batch, proofs: seq<SwapProof>, budget: nat) {
    && Joined(done) + open.proofs == proofs
    && (forall i :: 0 <= i < |done| ==> Submittable(done[i], budget))
    && Greedy(done, budget)
    && |open.proofs| <= MAX_BATCH_PROOFS && open.estimatedGas == BASE_GAS + GasSum(open.proofs)
    && (open.proofs != [] ==> open.estimatedGas <= budget)
    && (open.proofs == [] ==> done == [])
    && (open.proofs != [] && done != [] ==> Full(done[|done| - 1], open.proofs[0], budget))
  }

  /** Closing a full batch and opening the next with one proof. */
  lemma PackClosed(done: seq<Batch>, open: Batch, proofs: seq<SwapProof>, p: SwapProof, budget: nat)
    requires Packed(done, open, proofs, budget) && Full(open, p, budget) && BASE_GAS + Gas(p) <= budget
    requires open.proofs != []
    ensures Packed(done + [open], Batch([p], BASE_GAS + Gas(p)), proofs + [p], budget)
  {
    hide Gas;
    hide GasSum;
    JoinedAppend(done, open);
    SingleGas(p);
    var all := done + [open];
    forall i, j | 0 <= i < j < |all| && j == i + 1 ensures Followed(all[i], all[j], budget) {
      assert all[i] == done[i];
      assert j < |done| ==> all[j] == done[j] && Followed(done[i], done[j], budget);
    }
  }

  /** The open batch takes the proof. */
  lemma PackOpen(done: seq<Batch>, open: Batch, proofs: seq<SwapProof>, p: SwapProof, budget: nat)
    requires Packed(done, open, proofs, budget) && !Full(open, p, budget)
    ensures Packed(done, Batch(open.proofs + [p], open.estimatedGas + Gas(p)), proofs + [p], budget)
  {
    hide Gas;
    GasSumConcat(open.proofs, [p]);
    SingleGas(p);
    hide GasSum;
    hide Greedy;
    assert Joined(done) + (open.proofs + [p]) == Joined(done) + open.proofs + [p];
  }

  /** Splits proofs greedily. It fails on a budget out of range and on a proof that cannot fit at
      all; otherwise no order-preserving split into submittable batches has fewer batches. */
  method BatchProofs(proofs: seq<SwapProof>, budget: nat) returns (r: Option<seq<Batch>>)
    ensures r.Some? <==>
            MIN_BUDGET <= budget <= MAX_SAFE_INTEGER && forall i :: 0 <= i < |proofs| ==> BASE_GAS + Gas(proofs[i]) <= budget
    ensures r.Some? ==> Splits(r.value, proofs, budget)
    ensures r.Some? ==> forall split :: Splits(split, proofs, budget) ==> |r.value| <= |split|
  {
    hide Gas;
    hide GasSum;
    hide Full;
    hide Greedy;
    hide Packed;
    if budget > MAX_SAFE_INTEGER || budget < MIN_BUDGET {
      return None;
    }
    var batches: seq<Batch> := [];
    var batch := Batch([], BASE_GAS);
    NothingPacked(budget);
    for i := 0 to |proofs|
      invariant forall k :: 0 <= k < i ==> BASE_GAS + Gas(proofs[k]) <= budget
      invariant Packed(batches, batch, proofs[..i], budget)
    {
      var gas := Gas(proofs[i]);
      if gas + BASE_GAS > budget {
        return None;
      }
      assert proofs[..i + 1] == proofs[..i] + [proofs[i]];
      PackNext(batches, batch, proofs[..i], proofs[i], budget);
      if |batch.proofs| == MAX_BATCH_PROOFS || batch.estimatedGas + gas > budget {
        batches := batches + [batch];
        batch := Batch([], BASE_GAS);
      }
      batch := Batch(batch.proofs + [proofs[i]], batch.estimatedGas + gas);
    }
    assert proofs[..|proofs|] == proofs;
    PackDone(batches, batch, proofs, budget);
    if batch.proofs != [] {
      batches := batches + [batch];
    }
    forall split | Splits(split, proofs, budget) ensures |batches| <= |split| {
      assert proofs == [] + proofs;
      StaysAhead(batches, proofs, split, proofs, [], budget);
    }
    r := Some(batches);
  }

  lemma NothingPacked(budget: nat)
    ensures Packed([], Batch([], BASE_GAS), [], budget)
  {
  }

  /** One turn of the loop: the batch is closed if need be, and the proof goes into the open one. */
  lemma PackNext(done: seq<Batch>, open: Batch, proofs: seq<SwapProof>, p: SwapProof, budget: nat)
    requires Packed(done, open, proofs, budget) && BASE_GAS + Gas(p) <= budget
    ensures if |open.proofs| == MAX_BATCH_PROOFS || open.estimatedGas + Gas(p) > budget
            then Packed(done + [open], Batch([] + [p], BASE_GAS + Gas(p)), proofs + [p], budget)
            else Packed(done, Batch(open.proofs + [p], open.estimatedGas + Gas(p)), proofs + [p], budget)
  {
    hide Gas;
    if Full(open, p, budget) {
      PackClosed(done, open, proofs, p, budget);
      assert [] + [p] == [p];
    } else {
      PackOpen(done, open, proofs, p, budget);
    }
  }

  lemma PackDone(done: seq<Batch>, open: Batch, proofs: seq<SwapProof>, budget: nat)
    requires Packed(done, open, proofs, budget)
    ensures open.proofs != [] ==> Splits(done + [open], proofs, budget) && Greedy(done + [open], budget)
    ensures open.proofs == [] ==> Splits(done, proofs, budget) && Greedy(done, budget)
  {
    JoinedAppend(done, open);
    hide Full;
    hide GasSum;
    var all := done + [open];
    if open.proofs != [] {
      forall i, j | 0 <= i < j < |all| && j == i + 1 ensures Followed(all[i], all[j], budget) {
        assert all[i] == done[i];
        assert j < |done| ==> all[j] == done[j] && Followed(done[i], done[j], budget);
      }
    }
  }
}
