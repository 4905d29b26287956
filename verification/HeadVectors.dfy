/** build_head_vectors: a trail's successive heads, each proved to extend the last. */
module HeadVectors {
  import opened Binary
  import opened MerkleTree
  import opened Consistency
  import opened ConsistencyVerifier

  predicate Increasing(seqs: seq<nat>, bound: nat) {
    && (forall i, j :: 0 <= i < j < |seqs| ==> seqs[i] < seqs[j])
    && forall i :: 0 <= i < |seqs| ==> seqs[i] < bound
  }

  lemma {:induction false} ProofIsDigests(h: Hash, m: nat, leaves: seq<Bytes>, complete: bool)
    requires 1 <= m <= |leaves|
    ensures AllDigests(SubProof(h, m, leaves, complete))
    decreases |leaves|
  {
    hide TreeHash;
    if m < |leaves| {
      var k := SplitPoint(|leaves|);
      if m <= k {
        ProofIsDigests(h, m, leaves[..k], complete);
      } else {
        ProofIsDigests(h, m - k, leaves[k..], false);
      }
    }
  }

  // head is what an honest writer publishes at size leaves.
  ghost predicate Honest(h: Hash, head: Head, leaves: seq<Bytes>, seqNo: nat)
    requires seqNo < |leaves|
  {
    head.size == seqNo + 1 && CommitsToPrefix(h, head, leaves) && AllDigests(head.proofFromPrev)
  }

  // None would be the AssertionError on a proof that does not verify: it never happens, and the heads
  // form an accepted run.
  method BuildHeads(h: Hash, leaves: seq<Bytes>, seqs: seq<nat>) returns (r: Option<seq<Head>>)
    requires Increasing(seqs, |leaves|)
    ensures r.Some? && |r.value| == |seqs| && AcceptedRun(h, r.value) && HeadsAreDigests(r.value)
    ensures seqs != [] ==> RunFits(r.value, |seqs| - 1)
    ensures forall i :: 0 <= i < |seqs| ==> Honest(h, r.value[i], leaves, seqs[i])
  {
    hide TreeHash, SubProof, Accepts;
    var heads: seq<Head> := [];
    var prev: Option<nat> := None;
    for i := 0 to |seqs|
      invariant |heads| == i && AcceptedRun(h, heads) && HeadsAreDigests(heads)
      invariant forall j :: 0 <= j < i ==> Honest(h, heads[j], leaves, seqs[j])
      invariant prev == if i == 0 then None else Some(seqs[i - 1])
    {
      var seqNo := seqs[i];
      var current := leaves[..seqNo + 1];
      var proof: seq<Bytes> := [];
      if prev.Some? {
        var size := prev.value + 1;
        Completeness(h, current, size);
        ProofIsDigests(h, size, current, true);
        proof := ConsistencyProof(h, current, size).value;
        assert current[..size] == leaves[..size];
        var texts := seq(|proof|, j requires 0 <= j < |proof| => Some(proof[j]));
        assert Decoded(texts) == proof;
        var ok := VerifyConsistency(h, Some(TreeHash(h, leaves[..size])), size, Some(TreeHash(h, current)), seqNo + 1, texts);
        if !ok {
          return None;
        }
      }
      heads := heads + [Head(TreeHash(h, current), seqNo + 1, proof)];
      assert i > 0 ==> Extends(h, heads, i);
      assert forall j :: 0 < j < i ==> Extends(h, heads[..i], j) ==> Extends(h, heads, j);
      prev := Some(seqNo);
    }
    if seqs != [] {
      DigestsFit(h, heads, |seqs| - 1);
    }
    return Some(heads);
  }
}
