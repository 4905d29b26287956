/** The forward-secure attestor: key file, aggregate file and sidecar, with a crash between any two writes. */
module Attestor {
  import opened Binary
  import opened Frames

  type Key = Bytes

  // evolve_key, seal_entry and aggregate_step; nothing is assumed of them.
  datatype Crypto = Crypto(evolve: Key -> Key, seal: (Key, Text) -> Text, fold: (Key, Text, Text) -> Text)

  datatype Attestation = Attestation(seqNo: int, entryHash: Text, aggregate: bool, value: Text)

  // The running accumulator over the seals start .. epoch - 1.
  datatype Aggregate = Aggregate(start: int, epoch: int, mu: Text)

  // Where the process stops: before any write, after the key file, or after the aggregate file.
  datatype Crash = NoCrash | BeforeKey | AfterKey | AfterAggregate

  datatype Outcome = Attested(att: Attestation) | EpochMismatch | AggregateMismatch | Crashed

  datatype Problem = KeyfileMissing | KeyfileEpochMismatch | KeyfileKeyMismatch

  function AggGenesis(): (g: Text)
    ensures |g| == 64 && forall i :: 0 <= i < 64 ==> g[i] == '0' as int
  {
    seq(64, _ => 48)
  }

  function KeyAt(crypto: Crypto, k0: Key, epoch: nat): Key {
    if epoch == 0 then k0 else crypto.evolve(KeyAt(crypto, k0, epoch - 1))
  }

  lemma KeyAtSteps(crypto: Crypto, k0: Key, epoch: nat)
    ensures KeyAt(crypto, k0, 0) == k0
    ensures KeyAt(crypto, k0, epoch + 1) == crypto.evolve(KeyAt(crypto, k0, epoch))
  {
  }

  // The fold of seals from start up to, not including, end.
  function FoldOf(crypto: Crypto, k0: Key, seals: seq<Attestation>, start: nat, end: nat): Text
    requires end <= |seals|
  {
    if end <= start then AggGenesis()
    else crypto.fold(KeyAt(crypto, k0, end - 1), FoldOf(crypto, k0, seals, start, end - 1), seals[end - 1].value)
  }

  lemma {:induction false} FoldOfGrows(crypto: Crypto, k0: Key, seals: seq<Attestation>, more: seq<Attestation>, start: nat, end: nat)
    requires seals <= more && end <= |seals|
    ensures FoldOf(crypto, k0, seals, start, end) == FoldOf(crypto, k0, more, start, end)
    decreases end
  {
    if start < end {
      FoldOfGrows(crypto, k0, seals, more, start, end - 1);
    }
  }

  // The three files. advances is history: the attestation made with each epoch's key, whether or not its
  // later writes happened; kept says which of them the sidecar lines are.
  class Trail {
    var keyFile: Option<(nat, Key)>
    var aggFile: Option<Aggregate>
    var sidecar: seq<Attestation>
    ghost var advances: seq<Attestation>
    ghost var kept: seq<nat>

    ghost predicate Valid(crypto: Crypto, k0: Key)
      reads this
    {
      && keyFile == Some((|advances|, KeyAt(crypto, k0, |advances|)))
      && SealsInOrder(crypto, k0, advances)
      && Subsequence(sidecar, advances, kept)
      && ExactFold(crypto, k0, advances, aggFile)
    }

    // Opening a trail that has no key file yet writes the initial key at epoch 0.
    constructor (crypto: Crypto, initialKey: Key)
      ensures Valid(crypto, initialKey) && sidecar == advances == [] && aggFile.None?
    {
      keyFile, aggFile, sidecar, advances, kept := Some((0, initialKey)), None, [], [], [];
    }

    method Attest(crypto: Crypto, ghost k0: Key, aggregate: bool, seqNo: int, entryHash: Text, crash: Crash)
      returns (o: Outcome)
      requires Valid(crypto, k0)
      modifies this
      ensures Valid(crypto, k0)
      // Refused exactly when the epoch is not the entry's, or the accumulator stopped short of it.
      ensures o.EpochMismatch? <==> |old(advances)| != seqNo
      ensures o.AggregateMismatch? <==> |old(advances)| == seqNo && aggregate && old(aggFile).Some? && old(aggFile).value.epoch != seqNo
      ensures o.EpochMismatch? || o.AggregateMismatch? ==>
                keyFile == old(keyFile) && aggFile == old(aggFile) && sidecar == old(sidecar) && advances == old(advances)
      // Otherwise the writes happen in order, up to the crash.
      ensures o.Attested? || o.Crashed? ==>
                var att := Attestation(seqNo, entryHash, aggregate, crypto.seal(KeyAt(crypto, k0, |old(advances)|), entryHash));
                && (o == if crash.NoCrash? then Attested(att) else Crashed)
                && advances == old(advances) + (if crash.BeforeKey? then [] else [att])
                && sidecar == old(sidecar) + (if crash.NoCrash? then [att] else [])
                && (aggFile != old(aggFile) ==> aggregate && (crash.NoCrash? || crash.AfterAggregate?))
                && (aggregate && (crash.NoCrash? || crash.AfterAggregate?) ==>
                      && aggFile.Some? && aggFile.value.epoch == |advances|
                      && aggFile.value.start == if old(aggFile).None? then seqNo else old(aggFile).value.start)
      // The key moves one step on, and the accumulator folds the one new seal with the key it was made with.
      ensures o.Attested? ==> o.att == Attestation(seqNo, entryHash, aggregate, crypto.seal(old(keyFile).value.1, entryHash))
      ensures (o.Attested? || o.Crashed?) && !crash.BeforeKey? ==>
                keyFile == Some((old(keyFile).value.0 + 1, crypto.evolve(old(keyFile).value.1)))
      ensures (o.Attested? || o.Crashed?) && crash.BeforeKey? ==> keyFile == old(keyFile)
      ensures (o.Attested? || o.Crashed?) && aggregate && (crash.NoCrash? || crash.AfterAggregate?) ==>
                aggFile.value.mu == crypto.fold(old(keyFile).value.1,
                                                if old(aggFile).None? then AggGenesis() else old(aggFile).value.mu,
                                                crypto.seal(old(keyFile).value.1, entryHash))
    {
      hide Subsequence, SealsInOrder, FoldOf;
      var epoch, key := keyFile.value.0, keyFile.value.1;
      if epoch != seqNo {
        return EpochMismatch;
      }
      var att := Attestation(seqNo, entryHash, aggregate, crypto.seal(key, entryHash));
      var evolved := crypto.evolve(key);
      ghost var longer := advances + [att];
      SealsInOrderSnoc(crypto, k0, advances, att);
      SubsequenceSnoc(sidecar, advances, kept, att);
      ExactFoldGrows(crypto, k0, advances, longer, aggFile);
      if aggregate {
        var prior := aggFile;
        if prior.Some? && prior.value.epoch != seqNo {
          return AggregateMismatch;
        }
        var start, previous := if prior.Some? then prior.value.start else seqNo, if prior.Some? then prior.value.mu else AggGenesis();
        var running := crypto.fold(key, previous, att.value);
        FoldOfNext(crypto, k0, longer, start, epoch);
        if crash.BeforeKey? {
          return Crashed;
        }
        keyFile, advances := Some((epoch + 1, evolved)), longer;
        if crash.AfterKey? {
          return Crashed;
        }
        aggFile := Some(Aggregate(start, epoch + 1, running));
      } else {
        if crash.BeforeKey? {
          return Crashed;
        }
        keyFile, advances := Some((epoch + 1, evolved)), longer;
      }
      if !crash.NoCrash? {
        return Crashed;
      }
      sidecar, kept := sidecar + [att], kept + [epoch];
      return Attested(att);
    }

    method CheckContinuity(crypto: Crypto, initialKey: Key, attestationCount: int) returns (problem: Option<Problem>)
      ensures problem == if keyFile.None? then Some(KeyfileMissing)
                         else if keyFile.value.0 != attestationCount then Some(KeyfileEpochMismatch)
                         else if KeyAt(crypto, initialKey, keyFile.value.0) != keyFile.value.1 then Some(KeyfileKeyMismatch)
                         else None
    {
      if keyFile.None? {
        return Some(KeyfileMissing);
      }
      var epoch, key := keyFile.value.0, keyFile.value.1;
      if epoch != attestationCount {
        return Some(KeyfileEpochMismatch);
      }
      var expected := initialKey;
      for i := 0 to epoch
        invariant expected == KeyAt(crypto, initialKey, i)
      {
        expected := crypto.evolve(expected);
      }
      return if expected != key then Some(KeyfileKeyMismatch) else None;
    }
  }

  // Advance i was made for entry i under the i-th key.
  ghost predicate SealsInOrder(crypto: Crypto, k0: Key, advances: seq<Attestation>) {
    forall i :: 0 <= i < |advances| ==>
      advances[i].seqNo == i && advances[i].value == crypto.seal(KeyAt(crypto, k0, i), advances[i].entryHash)
  }

  // The sidecar lines are advances, in order.
  ghost predicate Subsequence(sidecar: seq<Attestation>, advances: seq<Attestation>, kept: seq<nat>) {
    && |kept| == |sidecar|
    && (forall i :: 0 <= i < |kept| ==> kept[i] < |advances| && sidecar[i] == advances[kept[i]])
    && (forall i, j :: 0 <= i < j < |kept| ==> kept[i] < kept[j])
  }

  // A stored accumulator is the fold of a run of consecutive seals, none skipped.
  ghost predicate ExactFold(crypto: Crypto, k0: Key, advances: seq<Attestation>, agg: Option<Aggregate>) {
    agg.Some? ==>
      && 0 <= agg.value.start < agg.value.epoch <= |advances|
      && agg.value.mu == FoldOf(crypto, k0, advances, agg.value.start, agg.value.epoch)
  }

  lemma SealsInOrderSnoc(crypto: Crypto, k0: Key, advances: seq<Attestation>, att: Attestation)
    requires SealsInOrder(crypto, k0, advances)
    requires att.seqNo == |advances| && att.value == crypto.seal(KeyAt(crypto, k0, |advances|), att.entryHash)
    ensures SealsInOrder(crypto, k0, advances + [att])
  {
  }

  lemma SubsequenceSnoc(sidecar: seq<Attestation>, advances: seq<Attestation>, kept: seq<nat>, att: Attestation)
    requires Subsequence(sidecar, advances, kept)
    ensures Subsequence(sidecar, advances + [att], kept)
    ensures Subsequence(sidecar + [att], advances + [att], kept + [|advances|])
  {
  }

  lemma ExactFoldGrows(crypto: Crypto, k0: Key, advances: seq<Attestation>, more: seq<Attestation>, agg: Option<Aggregate>)
    requires ExactFold(crypto, k0, advances, agg) && advances <= more
    ensures ExactFold(crypto, k0, more, agg)
    ensures agg.Some? ==> FoldOf(crypto, k0, more, agg.value.start, agg.value.epoch) == agg.value.mu
  {
    if agg.Some? {
      FoldOfGrows(crypto, k0, advances, more, agg.value.start, agg.value.epoch);
    }
  }

  lemma FoldOfNext(crypto: Crypto, k0: Key, seals: seq<Attestation>, start: nat, n: nat)
    requires start <= n < |seals|
    ensures FoldOf(crypto, k0, seals, start, n + 1) ==
            crypto.fold(KeyAt(crypto, k0, n), FoldOf(crypto, k0, seals, start, n), seals[n].value)
    ensures FoldOf(crypto, k0, seals, n, n) == AggGenesis()
  {
  }

  // As many lines as advances means every advance has its line.
  lemma {:induction false} FullSubsequence(sidecar: seq<Attestation>, advances: seq<Attestation>, kept: seq<nat>)
    requires Subsequence(sidecar, advances, kept)
    ensures |sidecar| <= |advances|
    ensures |sidecar| == |advances| <==> sidecar == advances
  {
    forall i | 0 <= i < |kept| ensures i <= kept[i] {
      KeptAtLeast(kept, i);
    }
    assert |kept| > 0 ==> kept[|kept| - 1] < |advances|;
    if |sidecar| == |advances| {
      forall i | 0 <= i < |kept| ensures kept[i] == i {
        KeptAtMost(kept, |advances|, i);
      }
    }
  }

  lemma {:induction false} KeptAtLeast(kept: seq<nat>, i: nat)
    requires i < |kept| && forall a, b :: 0 <= a < b < |kept| ==> kept[a] < kept[b]
    ensures i <= kept[i]
  {
    if i > 0 {
      KeptAtLeast(kept, i - 1);
    }
  }

  lemma {:induction false} KeptAtMost(kept: seq<nat>, n: nat, i: nat)
    requires i < |kept| == n && forall a, b :: 0 <= a < b < |kept| ==> kept[a] < kept[b]
    requires forall a :: 0 <= a < |kept| ==> kept[a] < n
    ensures kept[i] <= i
    decreases n - i
  {
    if i + 1 < n {
      KeptAtMost(kept, n, i + 1);
    }
  }

  datatype Request = Request(aggregate: bool, seqNo: int, entryHash: Text, crash: Crash)

  // Any run of attest calls, under either scheme, crashing anywhere: the continuity check against any
  // number of sidecar lines passes exactly when that number is the number of key advances, so on the
  // sidecar as it stands it passes exactly when no advance lost its line, and with lines dropped never.
  method AnyRun(crypto: Crypto, k0: Key, requests: seq<Request>, dropped: nat)
    returns (trail: Trail, whole: Option<Problem>, truncated: Option<Problem>)
    ensures fresh(trail) && trail.Valid(crypto, k0)
    ensures whole.None? <==> trail.sidecar == trail.advances
    ensures dropped > 0 ==> truncated == Some(KeyfileEpochMismatch)
    ensures (forall i :: 0 <= i < |requests| ==> requests[i].crash.NoCrash?) ==> trail.sidecar == trail.advances && whole.None?
  {
    trail := new Trail(crypto, k0);
    for i := 0 to |requests|
      invariant fresh(trail) && trail.Valid(crypto, k0)
      invariant (forall j :: 0 <= j < i ==> requests[j].crash.NoCrash?) ==> trail.sidecar == trail.advances
    {
      var r := requests[i];
      var _ := trail.Attest(crypto, k0, r.aggregate, r.seqNo, r.entryHash, r.crash);
    }
    FullSubsequence(trail.sidecar, trail.advances, trail.kept);
    whole := trail.CheckContinuity(crypto, k0, |trail.sidecar|);
    truncated := trail.CheckContinuity(crypto, k0, |trail.sidecar| - dropped);
  }
}
