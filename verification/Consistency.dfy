/** The recursive reading of a consistency proof, and what acceptance means (RFC 9162 section 2.1.4). */
module Consistency {
  import opened Binary
  import opened MerkleTree

  datatype Roots = Roots(first: Bytes, second: Bytes)

  // Both roots from a proof whose seed comes first, undoing SUBPROOF one level at a time: the last
  // element is the sibling at the split of n. None when the proof has the wrong length.
  function Rebuild(h: Hash, m: nat, n: nat, path: seq<Bytes>): Option<Roots>
    requires 1 <= m <= n
    decreases n
  {
    if |path| == 0 then None
    else if m == n then
      if |path| == 1 then Some(Roots(path[0], path[0])) else None
    else
      var k, last, rest := SplitPoint(n), path[|path| - 1], path[..|path| - 1];
      if m <= k then GrowRight(h, Rebuild(h, m, k, rest), last)
      else GrowLeft(h, Rebuild(h, m - k, n - k, rest), last)
  }

  // A sibling to the right of the old tree is new to it: only the new root takes it in.
  function GrowRight(h: Hash, r: Option<Roots>, sibling: Bytes): Option<Roots> {
    if r.None? then None else Some(Roots(r.value.first, Pair(h, r.value.second, sibling)))
  }

  // A sibling to the left is shared by both trees.
  function GrowLeft(h: Hash, r: Option<Roots>, sibling: Bytes): Option<Roots> {
    if r.None? then None else Some(Roots(Pair(h, sibling, r.value.first), Pair(h, sibling, r.value.second)))
  }

  // The verifier's seed is the old root itself when m is a power of two, else the first element.
  function Path(oldRoot: Bytes, m: nat, proof: seq<Bytes>): seq<Bytes> {
    if IsPow2(m) then [oldRoot] + proof else proof
  }

  predicate Accepts(h: Hash, oldRoot: Bytes, m: int, newRoot: Bytes, n: int, proof: seq<Bytes>) {
    if m < 1 || n < m then false
    else if m == n then proof == [] && oldRoot == newRoot
    else Rebuild(h, m, n, Path(oldRoot, m, proof)) == Some(Roots(oldRoot, newRoot))
  }

  // ----- Length: a function of the two sizes alone -----

  function PathLength(m: nat, n: nat): (c: nat)
    requires 1 <= m <= n
    ensures c >= 1
    ensures m < n ==> c >= 2
    decreases n
  {
    if m == n then 1
    else
      var k := SplitPoint(n);
      1 + if m <= k then PathLength(m, k) else PathLength(m - k, n - k)
  }

  lemma {:induction false} RebuildLength(h: Hash, m: nat, n: nat, path: seq<Bytes>)
    requires 1 <= m <= n
    ensures Rebuild(h, m, n, path).Some? <==> |path| == PathLength(m, n)
    decreases n
  {
    if |path| > 0 && m < n {
      var k, rest := SplitPoint(n), path[..|path| - 1];
      if m <= k {
        RebuildLength(h, m, k, rest);
      } else {
        RebuildLength(h, m - k, n - k, rest);
      }
    }
  }

  // The least j with n <= 2^j.
  function CeilLg(n: nat): (j: nat)
    requires n >= 1
    ensures n <= Pow2(j) && (j > 0 ==> Pow2(j - 1) < n)
  {
    if n == 1 then 0 else Lg(n - 1) + 1
  }

  lemma CeilLgHalves(n: nat, k: nat)
    requires 1 <= k && n >= 2 && k <= SplitPoint(n)
    ensures CeilLg(k) <= CeilLg(n) - 1
  {
    if k > 1 && CeilLg(k) > Lg(n - 1) {
      Pow2Monotone(Lg(n - 1), CeilLg(k) - 1);
    }
  }

  lemma {:induction false} Pow2Monotone(i: nat, j: nat)
    requires i <= j
    ensures Pow2(i) <= Pow2(j)
  {
    if i < j {
      Pow2Monotone(i, j - 1);
    }
  }

  lemma {:induction false} PathLengthBound(m: nat, n: nat)
    requires 1 <= m <= n
    ensures PathLength(m, n) <= CeilLg(n) + 1
    decreases n
  {
    if m < n {
      var k := SplitPoint(n);
      if m <= k {
        PathLengthBound(m, k);
        CeilLgHalves(n, k);
      } else {
        PathLengthBound(m - k, n - k);
        CeilLgHalves(n, n - k);
      }
    }
  }

  // Every accepted proof, honest or not, has the one length the sizes determine.
  lemma AcceptedLength(h: Hash, oldRoot: Bytes, m: int, newRoot: Bytes, n: int, proof: seq<Bytes>)
    requires Accepts(h, oldRoot, m, newRoot, n, proof)
    ensures |proof| == if m == n then 0 else PathLength(m, n) - if IsPow2(m) then 1 else 0
    ensures |proof| <= CeilLg(n) + 1
  {
    if m < n {
      RebuildLength(h, m, n, Path(oldRoot, m, proof));
      PathLengthBound(m, n);
    }
  }

  // ----- Completeness -----

  lemma RebuildUnfold(h: Hash, m: nat, n: nat, rest: seq<Bytes>, last: Bytes)
    requires 1 <= m < n
    ensures var k := SplitPoint(n);
            Rebuild(h, m, n, rest + [last]) ==
            if m <= k then GrowRight(h, Rebuild(h, m, k, rest), last)
            else GrowLeft(h, Rebuild(h, m - k, n - k, rest), last)
  {
    var path := rest + [last];
    assert path[..|path| - 1] == rest;
  }

  ghost predicate Rebuilds(h: Hash, m: nat, leaves: seq<Bytes>, path: seq<Bytes>)
    requires 1 <= m <= |leaves|
  {
    Rebuild(h, m, |leaves|, path) == Some(Roots(TreeHash(h, leaves[..m]), TreeHash(h, leaves)))
  }

  lemma RebuildsLeft(h: Hash, m: nat, leaves: seq<Bytes>, rest: seq<Bytes>, k: nat)
    requires 1 <= m <= k < |leaves| && k == SplitPoint(|leaves|)
    requires Rebuilds(h, m, leaves[..k], rest)
    ensures Rebuilds(h, m, leaves, rest + [TreeHash(h, leaves[k..])])
  {
    RebuildUnfold(h, m, |leaves|, rest, TreeHash(h, leaves[k..]));
    assert leaves[..k][..m] == leaves[..m];
  }

  lemma RebuildsRight(h: Hash, m: nat, leaves: seq<Bytes>, rest: seq<Bytes>, k: nat)
    requires 1 <= k < m < |leaves| && k == SplitPoint(|leaves|)
    requires Rebuilds(h, m - k, leaves[k..], rest)
    ensures Rebuilds(h, m, leaves, rest + [TreeHash(h, leaves[..k])])
  {
    hide Rebuild, SplitPoint, TreeHash;
    var right, left := leaves[k..], TreeHash(h, leaves[..k]);
    assert Rebuild(h, m - k, |leaves| - k, rest) == Some(Roots(TreeHash(h, right[..m - k]), TreeHash(h, right)));
    RebuildUnfold(h, m, |leaves|, rest, left);
    PrefixHash(h, m, leaves, k);
    PrefixHash(h, |leaves|, leaves, k);
    assert leaves[..|leaves|] == leaves && right[..|leaves| - k] == right;
  }

  lemma {:induction false} RebuildHonest(h: Hash, m: nat, leaves: seq<Bytes>)
    requires 1 <= m <= |leaves|
    ensures Rebuilds(h, m, leaves, SubProof(h, m, leaves, false))
    decreases |leaves|
  {
    var n := |leaves|;
    if m == n {
      assert leaves[..m] == leaves;
    } else {
      var k := SplitPoint(n);
      if m <= k {
        RebuildHonest(h, m, leaves[..k]);
        RebuildsLeft(h, m, leaves, SubProof(h, m, leaves[..k], false), k);
      } else {
        RebuildHonest(h, m - k, leaves[k..]);
        RebuildsRight(h, m, leaves, SubProof(h, m - k, leaves[k..], false), k);
      }
    }
  }

  lemma Completeness(h: Hash, leaves: seq<Bytes>, m: int)
    requires 1 <= m <= |leaves|
    ensures ConsistencyProof(h, leaves, m).Some?
    ensures Accepts(h, TreeHash(h, leaves[..m]), m, TreeHash(h, leaves), |leaves|, ConsistencyProof(h, leaves, m).value)
  {
    if m == |leaves| {
      assert leaves[..m] == leaves;
    } else {
      CompleteDropsTheOldRoot(h, m, leaves);
      RebuildHonest(h, m, leaves);
    }
  }

  // ----- Soundness and uniqueness -----

  predicate AllDigests(path: seq<Bytes>) {
    forall i :: 0 <= i < |path| ==> |path[i]| == 32
  }

  // Walks the proof and the actual tree side by side; the first node whose children differ from the
  // tree's is a second preimage of that node's digest.
  function Forgery(h: Hash, m: nat, leaves: seq<Bytes>, path: seq<Bytes>): Option<(Bytes, Bytes)>
    requires 1 <= m <= |leaves|
    decreases |leaves|
  {
    if m == |leaves| || |path| == 0 then None
    else
      var k, last, rest := SplitPoint(|leaves|), path[|path| - 1], path[..|path| - 1];
      var actual := NodeInput(TreeHash(h, leaves[..k]), TreeHash(h, leaves[k..]));
      if m <= k then
        var r := Rebuild(h, m, k, rest);
        if r.None? then None
        else if NodeInput(r.value.second, last) != actual then Some((NodeInput(r.value.second, last), actual))
        else Forgery(h, m, leaves[..k], rest)
      else
        var r := Rebuild(h, m - k, |leaves| - k, rest);
        if r.None? then None
        else if NodeInput(last, r.value.second) != actual then Some((NodeInput(last, r.value.second), actual))
        else Forgery(h, m - k, leaves[k..], rest)
  }

  // Only the seed's length has to be known: every other digest is one the walk computes.
  lemma {:induction false} RebuiltDigests(h: Hash, m: nat, n: nat, path: seq<Bytes>)
    requires 1 <= m <= n && |path| > 0 && |path[0]| == 32
    ensures match Rebuild(h, m, n, path)
            case Some(r) => |r.first| == 32 && |r.second| == 32
            case None => true
    decreases n
  {
    if |path| > 1 && m < n {
      var k, rest := SplitPoint(n), path[..|path| - 1];
      if m <= k {
        RebuiltDigests(h, m, k, rest);
      } else {
        RebuiltDigests(h, m - k, n - k, rest);
      }
    }
  }

  ghost predicate RebuiltFrom(h: Hash, m: nat, leaves: seq<Bytes>, path: seq<Bytes>)
    requires 1 <= m <= |leaves|
  {
    match Forgery(h, m, leaves, path)
    case Some((x, y)) => Collides(h, x, y)
    case None =>
      path == SubProof(h, m, leaves, false) && Rebuilds(h, m, leaves, path)
  }

  lemma {:induction false} RebuildSound(h: Hash, m: nat, leaves: seq<Bytes>, path: seq<Bytes>)
    requires 1 <= m <= |leaves| && |path| > 0 && |path[0]| == 32
    requires var r := Rebuild(h, m, |leaves|, path);
             r.Some? && r.value.second == TreeHash(h, leaves)
    ensures RebuiltFrom(h, m, leaves, path)
    decreases |leaves|
  {
    hide Rebuild, TreeHash, Forgery, PathLength;
    var n := |leaves|;
    RebuildLength(h, m, n, path);
    if m == n {
      SoundWhole(h, leaves, path);
    } else {
      var k, last, rest := SplitPoint(n), path[|path| - 1], path[..|path| - 1];
      assert path == rest + [last];
      if m <= k {
        SoundLeft(h, m, leaves, rest, last, k);
        if Rebuild(h, m, k, rest).value.second == TreeHash(h, leaves[..k]) {
          RebuildSound(h, m, leaves[..k], rest);
          if Rebuilds(h, m, leaves[..k], rest) {
            RebuildsLeft(h, m, leaves, rest, k);
          }
        }
      } else {
        SoundRight(h, m, leaves, rest, last, k);
        if Rebuild(h, m - k, n - k, rest).value.second == TreeHash(h, leaves[k..]) {
          RebuildSound(h, m - k, leaves[k..], rest);
          if Rebuilds(h, m - k, leaves[k..], rest) {
            RebuildsRight(h, m, leaves, rest, k);
          }
        }
      }
    }
  }

  lemma SoundWhole(h: Hash, leaves: seq<Bytes>, path: seq<Bytes>)
    requires |leaves| >= 1
    requires var r := Rebuild(h, |leaves|, |leaves|, path);
             r.Some? && r.value.second == TreeHash(h, leaves)
    ensures RebuiltFrom(h, |leaves|, leaves, path)
  {
    assert leaves[..|leaves|] == leaves;
  }

  lemma RootIsPair(h: Hash, leaves: seq<Bytes>)
    requires |leaves| >= 2
    ensures var k := SplitPoint(|leaves|);
            TreeHash(h, leaves) == Pair(h, TreeHash(h, leaves[..k]), TreeHash(h, leaves[k..]))
  {
  }

  lemma NodeInputLast(l: Bytes, r: Bytes, l': Bytes, r': Bytes)
    requires |r| == |r'| && NodeInput(l, r) == NodeInput(l', r')
    ensures l == l' && r == r'
  {
    assert |NodeInput(l, r)| == |NodeInput(l', r')|;
    NodeInputInjective(l, r, l', r');
  }

  // One level of the walk, old tree inside the left subtree: unless the node is the tree's own, its
  // input is a second preimage.
  lemma SoundLeft(h: Hash, m: nat, leaves: seq<Bytes>, rest: seq<Bytes>, last: Bytes, k: nat)
    requires 1 <= m <= k < |leaves| && k == SplitPoint(|leaves|) && |rest| > 0 && |rest[0]| == 32
    requires var r := Rebuild(h, m, |leaves|, rest + [last]);
             r.Some? && r.value.second == TreeHash(h, leaves)
    ensures Rebuild(h, m, k, rest).Some?
    ensures var r, forged := Rebuild(h, m, k, rest).value, Forgery(h, m, leaves, rest + [last]);
            || (forged.Some? && Collides(h, forged.value.0, forged.value.1))
            || (r.second == TreeHash(h, leaves[..k]) && last == TreeHash(h, leaves[k..])
                && forged == Forgery(h, m, leaves[..k], rest))
  {
    var path := rest + [last];
    assert path[..|path| - 1] == rest;
    var left, right := TreeHash(h, leaves[..k]), TreeHash(h, leaves[k..]);
    RebuiltDigests(h, m, k, rest);
    var r := Rebuild(h, m, k, rest).value;
    if NodeInput(r.second, last) == NodeInput(left, right) {
      NodeInputInjective(r.second, last, left, right);
    }
  }

  // The same with the old tree reaching into the right subtree.
  lemma SoundRight(h: Hash, m: nat, leaves: seq<Bytes>, rest: seq<Bytes>, last: Bytes, k: nat)
    requires 1 <= k < m < |leaves| && k == SplitPoint(|leaves|) && |rest| > 0 && |rest[0]| == 32
    requires var r := Rebuild(h, m, |leaves|, rest + [last]);
             r.Some? && r.value.second == TreeHash(h, leaves)
    ensures Rebuild(h, m - k, |leaves| - k, rest).Some?
    ensures var r, forged := Rebuild(h, m - k, |leaves| - k, rest).value, Forgery(h, m, leaves, rest + [last]);
            || (forged.Some? && Collides(h, forged.value.0, forged.value.1))
            || (r.second == TreeHash(h, leaves[k..]) && last == TreeHash(h, leaves[..k])
                && forged == Forgery(h, m - k, leaves[k..], rest))
  {
    hide TreeHash, NodeInput, SplitPoint, Rebuild;
    RebuildUnfold(h, m, |leaves|, rest, last);
    RootIsPair(h, leaves);
    var path := rest + [last];
    assert path[..|path| - 1] == rest;
    var left, right := TreeHash(h, leaves[..k]), TreeHash(h, leaves[k..]);
    RebuiltDigests(h, m - k, |leaves| - k, rest);
    var r := Rebuild(h, m - k, |leaves| - k, rest).value;
    if NodeInput(last, r.second) == NodeInput(left, right) {
      NodeInputLast(last, r.second, left, right);
    }
  }

  // What a caller can check before relying on an accepted proof: the element the walk starts from is a
  // digest. The lengths of the others follow.
  predicate SeedFits(oldRoot: Bytes, m: nat, n: nat, proof: seq<Bytes>) {
    m == n || (Path(oldRoot, m, proof) != [] && |Path(oldRoot, m, proof)[0]| == 32)
  }

  // The new head is honest and the proof accepted. Then the old root is the hash of a prefix and the
  // proof is the generated one; otherwise Forgery names a collision.
  lemma Soundness(h: Hash, oldRoot: Bytes, m: int, leaves: seq<Bytes>, proof: seq<Bytes>)
    requires Accepts(h, oldRoot, m, TreeHash(h, leaves), |leaves|, proof)
    requires SeedFits(oldRoot, m, |leaves|, proof)
    ensures match Forgery(h, m, leaves, Path(oldRoot, m, proof))
            case Some((x, y)) => Collides(h, x, y)
            case None =>
              oldRoot == TreeHash(h, leaves[..m])
              && Some(proof) == ConsistencyProof(h, leaves, m)
  {
    if m == |leaves| {
      assert leaves[..m] == leaves;
    } else {
      var path := Path(oldRoot, m, proof);
      RebuildSound(h, m, leaves, path);
      if Forgery(h, m, leaves, path).None? {
        CompleteDropsTheOldRoot(h, m, leaves);
        if IsPow2(m) {
          assert path[1..] == proof;
          assert SubProof(h, m, leaves, false)[1..] == SubProof(h, m, leaves, true);
        }
      }
    }
  }

  // ----- Seeds of another length -----

  // Walks the proof and the trees of the old and the new leaves side by side; the first node whose
  // children differ from its tree's is a second preimage.
  function Misfit(h: Hash, prior: seq<Bytes>, leaves: seq<Bytes>, path: seq<Bytes>): Option<(Bytes, Bytes)>
    requires 1 <= |prior| <= |leaves|
    decreases |leaves|
  {
    if |prior| == |leaves| || |path| == 0 then None
    else
      var k, last, rest := SplitPoint(|leaves|), path[|path| - 1], path[..|path| - 1];
      var actual := NodeInput(TreeHash(h, leaves[..k]), TreeHash(h, leaves[k..]));
      if |prior| <= k then
        var r := Rebuild(h, |prior|, k, rest);
        if r.None? then None
        else if NodeInput(r.value.second, last) != actual then Some((NodeInput(r.value.second, last), actual))
        else Misfit(h, prior, leaves[..k], rest)
      else
        var r := Rebuild(h, |prior| - k, |leaves| - k, rest);
        var former := NodeInput(TreeHash(h, prior[..k]), TreeHash(h, prior[k..]));
        if r.None? then None
        else if NodeInput(last, r.value.second) != actual then Some((NodeInput(last, r.value.second), actual))
        else if NodeInput(last, r.value.first) != former then Some((NodeInput(last, r.value.first), former))
        else Misfit(h, prior[k..], leaves[k..], rest)
  }

  ghost predicate RebuildsBoth(h: Hash, prior: seq<Bytes>, leaves: seq<Bytes>, path: seq<Bytes>)
    requires 1 <= |prior| <= |leaves|
  {
    Rebuild(h, |prior|, |leaves|, path) == Some(Roots(TreeHash(h, prior), TreeHash(h, leaves)))
  }

  ghost predicate MisfitFound(h: Hash, prior: seq<Bytes>, leaves: seq<Bytes>, path: seq<Bytes>)
    requires 1 <= |prior| <= |leaves|
  {
    var found := Misfit(h, prior, leaves, path);
    found.Some? && Collides(h, found.value.0, found.value.1)
  }

  lemma MisfitLeft(h: Hash, prior: seq<Bytes>, leaves: seq<Bytes>, rest: seq<Bytes>, last: Bytes, k: nat)
    requires 1 <= |prior| <= k < |leaves| && k == SplitPoint(|leaves|)
    requires |rest| > 0 && |rest[0]| != 32 && RebuildsBoth(h, prior, leaves, rest + [last])
    ensures MisfitFound(h, prior, leaves, rest + [last])
            || (RebuildsBoth(h, prior, leaves[..k], rest)
                && Misfit(h, prior, leaves, rest + [last]) == Misfit(h, prior, leaves[..k], rest))
  {
    var path := rest + [last];
    assert path[..|path| - 1] == rest;
    var left, right := TreeHash(h, leaves[..k]), TreeHash(h, leaves[k..]);
    var r := Rebuild(h, |prior|, k, rest).value;
    SecondIsDigest(h, |prior|, k, rest);
    if NodeInput(r.second, last) == NodeInput(left, right) {
      NodeInputInjective(r.second, last, left, right);
    }
  }

  // Unless the walk ends at once, the new root it rebuilds is a hash; and if it does, the seed is both roots.
  lemma SecondIsDigest(h: Hash, m: nat, n: nat, path: seq<Bytes>)
    requires 1 <= m <= n && Rebuild(h, m, n, path).Some?
    ensures var r := Rebuild(h, m, n, path).value;
            if m < n then |r.second| == 32 else r == Roots(path[0], path[0])
  {
  }

  // The right-hand case, one level at a time.
  lemma MisfitUnfold(h: Hash, prior: seq<Bytes>, leaves: seq<Bytes>, path: seq<Bytes>, r: Roots)
    requires 2 <= |leaves| && SplitPoint(|leaves|) < |prior| < |leaves| && |path| > 0
    requires var k := SplitPoint(|leaves|);
             Rebuild(h, |prior| - k, |leaves| - k, path[..|path| - 1]) == Some(r)
    ensures var k, last, rest := SplitPoint(|leaves|), path[|path| - 1], path[..|path| - 1];
            var x, y := NodeInput(last, r.second), NodeInput(TreeHash(h, leaves[..k]), TreeHash(h, leaves[k..]));
            var x', y' := NodeInput(last, r.first), NodeInput(TreeHash(h, prior[..k]), TreeHash(h, prior[k..]));
            Misfit(h, prior, leaves, path) ==
            if x != y then Some((x, y)) else if x' != y' then Some((x', y')) else Misfit(h, prior[k..], leaves[k..], rest)
  {
    hide TreeHash, Rebuild, SplitPoint, NodeInput;
  }

  // The node at the top split has the digests of both trees' nodes.
  lemma BothRoots(h: Hash, prior: seq<Bytes>, leaves: seq<Bytes>, path: seq<Bytes>, k: nat) returns (r: Roots)
    requires 1 <= k < |prior| < |leaves| && k == SplitPoint(|leaves|)
    requires |path| > 0 && RebuildsBoth(h, prior, leaves, path)
    ensures Rebuild(h, |prior| - k, |leaves| - k, path[..|path| - 1]) == Some(r) && |r.second| == 32
    ensures var last := path[|path| - 1];
            && h(NodeInput(last, r.second)) == h(NodeInput(TreeHash(h, leaves[..k]), TreeHash(h, leaves[k..])))
            && h(NodeInput(last, r.first)) == h(NodeInput(TreeHash(h, prior[..k]), TreeHash(h, prior[k..])))
  {
    hide TreeHash, Rebuild, SplitPoint, NodeInput;
    var last, rest := path[|path| - 1], path[..|path| - 1];
    assert path == rest + [last];
    RebuildUnfold(h, |prior|, |leaves|, rest, last);
    SameSplit(|prior|, |leaves|);
    RootIsPair(h, leaves);
    RootIsPair(h, prior);
    SecondIsDigest(h, |prior| - k, |leaves| - k, rest);
    r := Rebuild(h, |prior| - k, |leaves| - k, rest).value;
  }

  // Equal inputs at the top split: the rest of the path rebuilds both right subtrees.
  lemma BothBelow(h: Hash, prior: seq<Bytes>, leaves: seq<Bytes>, rest: seq<Bytes>, last: Bytes, k: nat, r: Roots)
    requires 1 <= k < |prior| < |leaves| && Rebuild(h, |prior| - k, |leaves| - k, rest) == Some(r) && |r.second| == 32
    requires NodeInput(last, r.second) == NodeInput(TreeHash(h, leaves[..k]), TreeHash(h, leaves[k..]))
    requires NodeInput(last, r.first) == NodeInput(TreeHash(h, prior[..k]), TreeHash(h, prior[k..]))
    ensures RebuildsBoth(h, prior[k..], leaves[k..], rest)
  {
    hide Rebuild, TreeHash, NodeInput;
    NodeInputLast(last, r.second, TreeHash(h, leaves[..k]), TreeHash(h, leaves[k..]));
    NodeInputInjective(last, r.first, TreeHash(h, prior[..k]), TreeHash(h, prior[k..]));
  }

  // A whole tree's root would be the seed itself, so there is a level below.
  lemma MisfitGoesOn(h: Hash, prior: seq<Bytes>, leaves: seq<Bytes>, path: seq<Bytes>)
    requires 1 <= |prior| <= |leaves| && |path| > 0 && |path[0]| != 32 && RebuildsBoth(h, prior, leaves, path)
    ensures |prior| < |leaves| && |path| >= 2
  {
    hide Rebuild, TreeHash;
    RebuildLength(h, |prior|, |leaves|, path);
    SecondIsDigest(h, |prior|, |leaves|, path);
  }

  // Both roots are hashes of leaves and the seed is not a digest: then a collision is in hand.
  lemma {:induction false} MisfitCollides(h: Hash, prior: seq<Bytes>, leaves: seq<Bytes>, path: seq<Bytes>)
    requires 1 <= |prior| <= |leaves| && |path| > 0 && |path[0]| != 32 && RebuildsBoth(h, prior, leaves, path)
    ensures MisfitFound(h, prior, leaves, path)
    decreases |leaves|
  {
    hide Rebuild, TreeHash, Misfit, PathLength, SplitPoint, NodeInput, RebuildsBoth;
    MisfitGoesOn(h, prior, leaves, path);
    var k, last, rest := SplitPoint(|leaves|), path[|path| - 1], path[..|path| - 1];
    assert path == rest + [last];
    if |prior| <= k {
      MisfitLeft(h, prior, leaves, rest, last, k);
      if !MisfitFound(h, prior, leaves, path) {
        MisfitCollides(h, prior, leaves[..k], rest);
      }
    } else {
      var r := BothRoots(h, prior, leaves, path, k);
      MisfitUnfold(h, prior, leaves, path, r);
      if NodeInput(last, r.second) == NodeInput(TreeHash(h, leaves[..k]), TreeHash(h, leaves[k..]))
         && NodeInput(last, r.first) == NodeInput(TreeHash(h, prior[..k]), TreeHash(h, prior[k..])) {
        BothBelow(h, prior, leaves, rest, last, k, r);
        MisfitCollides(h, prior[k..], leaves[k..], rest);
      }
    }
  }

  function AcceptanceCollision(h: Hash, oldRoot: Bytes, m: nat, leaves: seq<Bytes>, proof: seq<Bytes>): Option<(Bytes, Bytes)>
    requires 1 <= m <= |leaves|
  {
    var path := Path(oldRoot, m, proof);
    if SeedFits(oldRoot, m, |leaves|, proof) then Forgery(h, m, leaves, path)
    else if oldRoot == TreeHash(h, leaves[..m]) then Misfit(h, leaves[..m], leaves, path)
    else None
  }

  // What acceptance against an honest new head says, for every proof: the old root is the hash of the
  // prefix exactly when the seed is a digest, and then the proof is the generated one; or the named
  // inputs collide.
  lemma AcceptanceExact(h: Hash, oldRoot: Bytes, m: int, leaves: seq<Bytes>, proof: seq<Bytes>)
    requires Accepts(h, oldRoot, m, TreeHash(h, leaves), |leaves|, proof)
    ensures match AcceptanceCollision(h, oldRoot, m, leaves, proof)
            case Some((x, y)) => Collides(h, x, y)
            case None =>
              && (oldRoot == TreeHash(h, leaves[..m]) <==> SeedFits(oldRoot, m, |leaves|, proof))
              && (oldRoot == TreeHash(h, leaves[..m]) ==> Some(proof) == ConsistencyProof(h, leaves, m))
  {
    hide Forgery, Misfit, TreeHash, ConsistencyProof;
    if SeedFits(oldRoot, m, |leaves|, proof) {
      Soundness(h, oldRoot, m, leaves, proof);
    } else if oldRoot == TreeHash(h, leaves[..m]) {
      RebuildLength(h, m, |leaves|, Path(oldRoot, m, proof));
      MisfitCollides(h, leaves[..m], leaves, Path(oldRoot, m, proof));
    }
  }

  // ----- Both leaf lists known -----

  function PrefixCollision(h: Hash, prior: seq<Bytes>, leaves: seq<Bytes>, proof: seq<Bytes>): Option<(Bytes, Bytes)>
    requires 1 <= |prior| <= |leaves|
  {
    var oldRoot, path := TreeHash(h, prior), Path(TreeHash(h, prior), |prior|, proof);
    if !SeedFits(oldRoot, |prior|, |leaves|, proof) then Misfit(h, prior, leaves, path)
    else
      var forged := Forgery(h, |prior|, leaves, path);
      if forged.Some? then forged else LeafCollision(h, prior, leaves[..|prior|])
  }

  // Whatever the lengths in the proof: the old leaves are a prefix of the new ones, or a collision is in hand.
  lemma AcceptedMeansPrefix(h: Hash, prior: seq<Bytes>, leaves: seq<Bytes>, proof: seq<Bytes>)
    requires Accepts(h, TreeHash(h, prior), |prior|, TreeHash(h, leaves), |leaves|, proof)
    ensures match PrefixCollision(h, prior, leaves, proof)
            case Some((x, y)) => Collides(h, x, y)
            case None => prior <= leaves
  {
    hide Forgery, Misfit, TreeHash, LeafCollision, ConsistencyProof;
    var oldRoot := TreeHash(h, prior);
    var path := Path(oldRoot, |prior|, proof);
    if !SeedFits(oldRoot, |prior|, |leaves|, proof) {
      RebuildLength(h, |prior|, |leaves|, path);
      MisfitCollides(h, prior, leaves, path);
    } else {
      Soundness(h, oldRoot, |prior|, leaves, proof);
      if Forgery(h, |prior|, leaves, path).None? {
        TreeHashBinds(h, prior, leaves[..|prior|]);
      }
    }
  }

  // ----- The verifier does not check the seed's length -----

  // An old root of 33 bytes: the two children of the node are cut apart at another place.
  lemma DigestLengthIsNeeded(h: Hash, a: Bytes, b: Bytes)
    ensures var leaves := [a, b];
            var left, right := LeafHash(h, a), LeafHash(h, b);
            var oldRoot, proof := left + right[..1], [right[1..]];
            && Accepts(h, oldRoot, 1, TreeHash(h, leaves), 2, proof)
            && oldRoot != TreeHash(h, leaves[..1])
            && Forgery(h, 1, leaves, Path(oldRoot, 1, proof)).None?
  {
    var leaves := [a, b];
    var left, right := LeafHash(h, a), LeafHash(h, b);
    var oldRoot, proof := left + right[..1], [right[1..]];
    assert SplitPoint(2) == 1;
    assert leaves[..1] == [a] && leaves[1..] == [b];
    assert TreeHash(h, leaves) == Pair(h, left, right);
    assert NodeInput(oldRoot, right[1..]) == NodeInput(left, right);
    var path := [oldRoot] + proof;
    assert Path(oldRoot, 1, proof) == path;
    assert path[..1] == [oldRoot];
    assert Rebuild(h, 1, 1, path[..1]) == Some(Roots(oldRoot, oldRoot));
  }

  lemma TwoLeaves(h: Hash, x: Bytes, y: Bytes)
    ensures TreeHash(h, [x, y]) == Pair(h, LeafHash(h, x), LeafHash(h, y))
  {
    assert SplitPoint(2) == 1;
    assert [x, y][..1] == [x] && [x, y][1..] == [y];
  }

  // What the verifier rebuilds from three elements for sizes 3 and 4.
  lemma RebuildThreeOfFour(h: Hash, s: Bytes, t: Bytes, u: Bytes)
    ensures Rebuild(h, 3, 4, [s, t, u]) == Some(Roots(Pair(h, u, s), Pair(h, u, Pair(h, s, t))))
  {
    assert SplitPoint(4) == 2 && SplitPoint(2) == 1;
    assert Rebuild(h, 1, 1, [s]) == Some(Roots(s, s));
    RebuildUnfold(h, 1, 2, [s], t);
    assert [s] + [t] == [s, t] && [s, t] + [u] == [s, t, u];
    RebuildUnfold(h, 3, 4, [s, t], u);
  }

  // An old root of 32 bytes: the third leaf's hash is lengthened by a byte of the fourth's. The proof is
  // accepted, no node of the new tree is forged, and the old root is the prefix's only if the two inputs
  // it is made from collide.
  lemma DigestRootIsNotEnough(h: Hash, a: Bytes, b: Bytes, c: Bytes, d: Bytes)
    ensures var leaves := [a, b, c, d];
            var ab, lc, ld := TreeHash(h, [a, b]), LeafHash(h, c), LeafHash(h, d);
            var seed := lc + ld[..1];
            var oldRoot, proof := Pair(h, ab, seed), [seed, ld[1..], ab];
            && Accepts(h, oldRoot, 3, TreeHash(h, leaves), 4, proof)
            && |oldRoot| == 32
            && Forgery(h, 3, leaves, Path(oldRoot, 3, proof)).None?
            && (oldRoot == TreeHash(h, leaves[..3]) <==> Collides(h, NodeInput(ab, seed), NodeInput(ab, lc)))
  {
    hide TreeHash, Rebuild, Forgery;
    var leaves := [a, b, c, d];
    var ab, lc, ld := TreeHash(h, [a, b]), LeafHash(h, c), LeafHash(h, d);
    var seed := lc + ld[..1];
    FourLeaves(h, a, b, c, d);
    assert NodeInput(seed, ld[1..]) == NodeInput(lc, ld);
    RebuildThreeOfFour(h, seed, ld[1..], ab);
    assert |NodeInput(ab, seed)| != |NodeInput(ab, lc)|;
    assert !IsPow2(3);
    NoForgery(h, leaves, seed, ld[1..], ab);
  }

  lemma FourLeaves(h: Hash, a: Bytes, b: Bytes, c: Bytes, d: Bytes)
    ensures var leaves := [a, b, c, d];
            && leaves[..2] == [a, b] && leaves[2..] == [c, d] && SplitPoint(4) == 2
            && TreeHash(h, [c, d]) == Pair(h, LeafHash(h, c), LeafHash(h, d))
            && TreeHash(h, leaves) == Pair(h, TreeHash(h, [a, b]), TreeHash(h, [c, d]))
            && TreeHash(h, leaves[..3]) == Pair(h, TreeHash(h, [a, b]), LeafHash(h, c))
  {
    var leaves := [a, b, c, d];
    assert SplitPoint(4) == 2;
    TwoLeaves(h, c, d);
    assert leaves[..2] == [a, b] && leaves[2..] == [c, d];
    PrefixHash(h, 3, leaves, 2);
    assert leaves[2..][..1] == [c];
  }

  lemma NoForgery(h: Hash, leaves: seq<Bytes>, s: Bytes, t: Bytes, u: Bytes)
    requires |leaves| == 4
    requires u == TreeHash(h, leaves[..2]) && TreeHash(h, leaves[2..]) == Pair(h, s, t)
    requires NodeInput(s, t) == NodeInput(LeafHash(h, leaves[2]), LeafHash(h, leaves[3]))
    ensures Forgery(h, 3, leaves, [s, t, u]).None?
  {
    assert SplitPoint(4) == 2 && SplitPoint(2) == 1;
    var path, part := [s, t, u], leaves[2..];
    assert path[..2] == [s, t] && [s, t][..1] == [s];
    assert part[..1] == [leaves[2]] && part[1..] == [leaves[3]];
    assert Rebuild(h, 1, 1, [s]) == Some(Roots(s, s));
    RebuildUnfold(h, 1, 2, [s], t);
    assert [s] + [t] == [s, t];
    assert Forgery(h, 1, part[..1], [s]).None?;
    assert Forgery(h, 1, part, [s, t]).None?;
  }

  // ----- Successive heads -----

  datatype Head = Head(root: Bytes, size: nat, proofFromPrev: seq<Bytes>)

  predicate Extends(h: Hash, heads: seq<Head>, i: nat)
    requires 0 < i < |heads|
  {
    var prev, next := heads[i - 1], heads[i];
    Accepts(h, prev.root, prev.size, next.root, next.size, next.proofFromPrev)
  }

  // Each head after the first was accepted against the one before it.
  predicate AcceptedRun(h: Hash, heads: seq<Head>) {
    forall i :: 0 < i < |heads| ==> Extends(h, heads, i)
  }

  predicate HeadsAreDigests(heads: seq<Head>) {
    forall i :: 0 <= i < |heads| ==> |heads[i].root| == 32 && AllDigests(heads[i].proofFromPrev)
  }

  predicate CommitsToPrefix(h: Hash, head: Head, leaves: seq<Bytes>) {
    head.size <= |leaves| && head.root == TreeHash(h, leaves[..head.size])
  }

  // The seed of head i's proof is a digest.
  predicate StepFits(heads: seq<Head>, i: nat)
    requires 0 < i < |heads|
  {
    SeedFits(heads[i - 1].root, heads[i - 1].size, heads[i].size, heads[i].proofFromPrev)
  }

  lemma LongerPrefix(h: Hash, head: Head, leaves: seq<Bytes>, n: nat)
    requires head.size <= n <= |leaves|
    ensures CommitsToPrefix(h, head, leaves[..n]) <==> CommitsToPrefix(h, head, leaves)
  {
    assert leaves[..n][..head.size] == leaves[..head.size];
  }

  lemma {:induction false} SizesGrow(h: Hash, heads: seq<Head>, j: nat, i: nat)
    requires AcceptedRun(h, heads) && j <= i < |heads|
    ensures heads[j].size <= heads[i].size && (j < i ==> 1 <= heads[j].size)
    decreases i
  {
    if j < i {
      assert Extends(h, heads, i);
      SizesGrow(h, heads, j, i - 1);
    }
  }

  // The first collision met going back from head i, as long as the heads are those of a prefix.
  function RunForgery(h: Hash, heads: seq<Head>, i: nat, leaves: seq<Bytes>): Option<(Bytes, Bytes)>
    requires i < |heads| && heads[i].size == |leaves| && AcceptedRun(h, heads)
    decreases i
  {
    if i == 0 then None
    else
      var prev := heads[i - 1];
      assert Extends(h, heads, i);
      var found := AcceptanceCollision(h, prev.root, prev.size, leaves, heads[i].proofFromPrev);
      if found.Some? || prev.root != TreeHash(h, leaves[..prev.size]) then found
      else RunForgery(h, heads, i - 1, leaves[..prev.size])
  }

  ghost predicate RunCommits(h: Hash, heads: seq<Head>, i: nat, leaves: seq<Bytes>)
    requires i < |heads|
  {
    forall j :: 0 <= j <= i ==> CommitsToPrefix(h, heads[j], leaves)
  }

  ghost predicate RunFits(heads: seq<Head>, i: nat)
    requires i < |heads|
  {
    forall j :: 0 < j <= i ==> StepFits(heads, j)
  }

  lemma DigestsFit(h: Hash, heads: seq<Head>, i: nat)
    requires AcceptedRun(h, heads) && HeadsAreDigests(heads) && i < |heads|
    ensures RunFits(heads, i)
  {
    forall j | 0 < j <= i ensures StepFits(heads, j) {
      assert Extends(h, heads, j);
    }
  }

  // No head of a run was ever rewritten: if head i is the hash of some leaves, every earlier head is the
  // hash of a prefix of them, exactly when every proof up to it starts from a digest.
  lemma {:induction false} RunIsPrefixSafe(h: Hash, heads: seq<Head>, i: nat, leaves: seq<Bytes>)
    requires AcceptedRun(h, heads)
    requires i < |heads| && heads[i].size == |leaves| && heads[i].root == TreeHash(h, leaves)
    ensures match RunForgery(h, heads, i, leaves)
            case Some((x, y)) => Collides(h, x, y)
            case None => RunCommits(h, heads, i, leaves) <==> RunFits(heads, i)
    decreases i
  {
    hide TreeHash, AcceptanceCollision, Rebuild, ConsistencyProof, SeedFits, Accepts;
    assert leaves[..|leaves|] == leaves;
    if i > 0 {
      var prev := heads[i - 1];
      assert Extends(h, heads, i);
      SizesGrow(h, heads, i - 1, i);
      AcceptanceExact(h, prev.root, prev.size, leaves, heads[i].proofFromPrev);
      if AcceptanceCollision(h, prev.root, prev.size, leaves, heads[i].proofFromPrev).None? {
        if prev.root == TreeHash(h, leaves[..prev.size]) {
          RunIsPrefixSafe(h, heads, i - 1, leaves[..prev.size]);
          RunPart(h, heads, i, leaves);
        } else {
          assert !CommitsToPrefix(h, heads[i - 1], leaves) && !StepFits(heads, i);
        }
      }
    }
  }

  lemma RunPart(h: Hash, heads: seq<Head>, i: nat, leaves: seq<Bytes>)
    requires AcceptedRun(h, heads)
    requires 0 < i < |heads| && heads[i].size == |leaves| && heads[i].root == TreeHash(h, leaves)
    requires heads[i - 1].size <= |leaves|
    ensures RunCommits(h, heads, i, leaves) <==> RunCommits(h, heads, i - 1, leaves[..heads[i - 1].size])
  {
    hide TreeHash, Accepts;
    assert leaves[..|leaves|] == leaves;
    forall j | 0 <= j < i
      ensures CommitsToPrefix(h, heads[j], leaves[..heads[i - 1].size]) <==> CommitsToPrefix(h, heads[j], leaves)
    {
      SizesGrow(h, heads, j, i - 1);
      LongerPrefix(h, heads[j], leaves, heads[i - 1].size);
    }
    assert CommitsToPrefix(h, heads[i], leaves);
  }
}
