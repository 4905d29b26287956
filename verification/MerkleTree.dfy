/** The Merkle tree hash of RFC 9162 section 2.1.1 and the proof generator of section 2.1.4.1. */
module MerkleTree {
  import opened Binary

  function LeafHash(h: Hash, leaf: Bytes): Digest {
    h([0] + leaf)
  }

  function NodeInput(left: Bytes, right: Bytes): Bytes {
    [1] + left + right
  }

  function Pair(h: Hash, left: Bytes, right: Bytes): Digest {
    h(NodeInput(left, right))
  }

  lemma NodeInputInjective(l: Bytes, r: Bytes, l': Bytes, r': Bytes)
    requires |l| == |l'|
    requires NodeInput(l, r) == NodeInput(l', r')
    ensures l == l' && r == r'
  {
    var x, y := NodeInput(l, r), NodeInput(l', r');
    assert x[1..1 + |l|] == l && x[1 + |l|..] == r;
    assert y[1..1 + |l'|] == l' && y[1 + |l'|..] == r';
  }

  // The largest power of two below n.
  function SplitPoint(n: nat): (k: nat)
    requires n >= 2
    ensures 1 <= k < n <= 2 * k
  {
    Pow2(Lg(n - 1))
  }

  lemma SplitPointIsPow2(n: nat)
    requires n >= 2
    ensures IsPow2(SplitPoint(n))
  {
    Pow2IsPow2(Lg(n - 1));
  }

  method ComputeSplitPoint(n: nat) returns (k: nat)
    ensures n >= 2 ==> k == SplitPoint(n)
    ensures n < 2 ==> k == 1
  {
    k := 1;
    ghost var j := 0;
    while k * 2 < n
      invariant k == Pow2(j)
      invariant n >= 2 ==> k < n
      invariant n < 2 ==> k == 1
      decreases n - k
    {
      k := k * 2;
      j := j + 1;
    }
    if n >= 2 {
      LgUnique(n - 1, j);
    }
  }

  function TreeHash(h: Hash, leaves: seq<Bytes>): Digest
    decreases |leaves|
  {
    if |leaves| == 0 then h([])
    else if |leaves| == 1 then LeafHash(h, leaves[0])
    else
      var k := SplitPoint(|leaves|);
      Pair(h, TreeHash(h, leaves[..k]), TreeHash(h, leaves[k..]))
  }

  function SubProof(h: Hash, m: nat, leaves: seq<Bytes>, complete: bool): (proof: seq<Bytes>)
    requires 1 <= m <= |leaves|
    decreases |leaves|
  {
    var n := |leaves|;
    if m == n then
      if complete then [] else [TreeHash(h, leaves)]
    else
      var k := SplitPoint(n);
      if m <= k then SubProof(h, m, leaves[..k], complete) + [TreeHash(h, leaves[k..])]
      else SubProof(h, m - k, leaves[k..], false) + [TreeHash(h, leaves[..k])]
  }

  // None stands for the IndexError on a size outside [1, n].
  function ConsistencyProof(h: Hash, leaves: seq<Bytes>, oldSize: int): Option<seq<Bytes>> {
    if 1 <= oldSize <= |leaves| then Some(SubProof(h, oldSize, leaves, true)) else None
  }

  // What "complete" leaves out is the old root, at the front, exactly when m is a power of two.
  lemma {:induction false} CompleteDropsTheOldRoot(h: Hash, m: nat, leaves: seq<Bytes>)
    requires 1 <= m <= |leaves|
    requires m < |leaves| || IsPow2(m)
    ensures SubProof(h, m, leaves, false) ==
            if IsPow2(m) then [TreeHash(h, leaves[..m])] + SubProof(h, m, leaves, true)
            else SubProof(h, m, leaves, true)
    decreases |leaves|
  {
    hide TreeHash;
    var n := |leaves|;
    if m == n {
      assert leaves[..m] == leaves;
    } else {
      var k := SplitPoint(n);
      SplitPointIsPow2(n);
      if m <= k {
        CompleteDropsTheOldRoot(h, m, leaves[..k]);
        assert leaves[..k][..m] == leaves[..m];
      } else if IsPow2(m) {
        IsPow2Lg(m);
        LgUnique(m - 1, Lg(n - 1));
        Pow2Between(Lg(n - 1), m);
      }
    }
  }

  lemma {:induction false} Pow2Between(j: nat, m: nat)
    requires Pow2(j) < m && m < 2 * Pow2(j)
    ensures !IsPow2(m)
  {
    LgUnique(m, j);
    IsPow2Lg(m);
  }

  lemma SameSplit(m: nat, n: nat)
    requires n >= 2 && SplitPoint(n) < m <= n
    ensures SplitPoint(m) == SplitPoint(n)
  {
    LgUnique(m - 1, Lg(n - 1));
  }

  // A prefix that reaches past the split has the same left subtree.
  lemma PrefixHash(h: Hash, m: nat, leaves: seq<Bytes>, k: nat)
    requires 2 <= |leaves| && k == SplitPoint(|leaves|) < m <= |leaves|
    ensures TreeHash(h, leaves[..m]) == Pair(h, TreeHash(h, leaves[..k]), TreeHash(h, leaves[k..][..m - k]))
  {
    SameSplit(m, |leaves|);
    assert leaves[..m][..k] == leaves[..k];
    assert leaves[..m][k..] == leaves[k..][..m - k];
  }

  // ----- The root binds the leaves -----

  // What is hashed last.
  function RootInput(h: Hash, leaves: seq<Bytes>): Bytes {
    if |leaves| == 0 then []
    else if |leaves| == 1 then [0] + leaves[0]
    else
      var k := SplitPoint(|leaves|);
      NodeInput(TreeHash(h, leaves[..k]), TreeHash(h, leaves[k..]))
  }

  lemma RootIsInputHashed(h: Hash, leaves: seq<Bytes>)
    ensures TreeHash(h, leaves) == h(RootInput(h, leaves))
  {
  }

  // Walks down both trees, each at its own splits, to the first two different hash inputs.
  function LeafCollision(h: Hash, a: seq<Bytes>, b: seq<Bytes>): Option<(Bytes, Bytes)>
    decreases |a|
  {
    var x, y := RootInput(h, a), RootInput(h, b);
    if x != y then Some((x, y))
    else if |a| < 2 || |b| < 2 then None
    else
      var i, j := SplitPoint(|a|), SplitPoint(|b|);
      var left := LeafCollision(h, a[..i], b[..j]);
      if left.Some? then left else LeafCollision(h, a[i..], b[j..])
  }

  // Leaf lists of any sizes with one root are equal, or two different hash inputs with one digest are in hand.
  lemma {:induction false} TreeHashBinds(h: Hash, a: seq<Bytes>, b: seq<Bytes>)
    requires TreeHash(h, a) == TreeHash(h, b)
    ensures match LeafCollision(h, a, b)
            case Some((x, y)) => Collides(h, x, y)
            case None => a == b
    decreases |a|
  {
    hide NodeInput, SplitPoint, TreeHash, RootInput;
    RootIsInputHashed(h, a);
    RootIsInputHashed(h, b);
    if RootInput(h, a) == RootInput(h, b) {
      SameInput(h, a, b);
      if |a| >= 2 {
        var i, j := SplitPoint(|a|), SplitPoint(|b|);
        TreeHashBinds(h, a[..i], b[..j]);
        TreeHashBinds(h, a[i..], b[j..]);
        assert a == a[..i] + a[i..] && b == b[..j] + b[j..];
      }
    }
  }

  lemma TagOf(h: Hash, leaves: seq<Bytes>)
    ensures var x := RootInput(h, leaves);
            if leaves == [] then x == [] else |x| > 0 && x[0] == if |leaves| == 1 then 0 else 1
  {
  }

  // Equal inputs are both a leaf's, and the same leaf, or both a node's, with the same children; the tags
  // tell them apart.
  lemma SameInput(h: Hash, a: seq<Bytes>, b: seq<Bytes>)
    requires RootInput(h, a) == RootInput(h, b)
    ensures |a| < 2 || |b| < 2 ==> a == b
    ensures |a| >= 2 && |b| >= 2 ==>
              var i, j := SplitPoint(|a|), SplitPoint(|b|);
              TreeHash(h, a[..i]) == TreeHash(h, b[..j]) && TreeHash(h, a[i..]) == TreeHash(h, b[j..])
  {
    hide SplitPoint, TreeHash;
    TagOf(h, a);
    TagOf(h, b);
    var x, y := RootInput(h, a), RootInput(h, b);
    if |a| >= 2 && |b| >= 2 {
      var i, j := SplitPoint(|a|), SplitPoint(|b|);
      NodeInputInjective(TreeHash(h, a[..i]), TreeHash(h, a[i..]), TreeHash(h, b[..j]), TreeHash(h, b[j..]));
    } else if |a| == 1 && |b| == 1 {
      assert x[1..] == a[0] && y[1..] == b[0];
    }
  }

  // ----- The same tree, level by level -----

  // Neighbours are hashed in pairs under the node tag; an odd one is carried up.
  function PairUp(h: Hash, level: seq<Bytes>): (up: seq<Bytes>)
    ensures |up| == (|level| + 1) / 2
  {
    if |level| < 2 then level else [h([1] + level[0] + level[1])] + PairUp(h, level[2..])
  }

  function LevelHash(h: Hash, level: seq<Bytes>): Bytes
    requires level != []
    decreases |level|
  {
    if |level| == 1 then level[0] else LevelHash(h, PairUp(h, level))
  }

  // The leaves, hashed under the leaf tag.
  function LeafLevel(h: Hash, leaves: seq<Bytes>): (level: seq<Bytes>)
    ensures |level| == |leaves| && forall i :: 0 <= i < |leaves| ==> level[i] == h([0] + leaves[i])
  {
    seq(|leaves|, i requires 0 <= i < |leaves| => h([0] + leaves[i]))
  }

  lemma {:induction false} PairUpSplit(h: Hash, level: seq<Bytes>, k: nat)
    requires k <= |level| && k % 2 == 0
    ensures PairUp(h, level) == PairUp(h, level[..k]) + PairUp(h, level[k..])
    decreases k
  {
    hide PairUp;
    if k == 0 {
      assert level[0..] == level && level[..0] == [];
      PairUpNone(h);
    } else {
      PairUpSplit(h, level[2..], k - 2);
      assert level[2..][..k - 2] == level[..k][2..] && level[2..][k - 2..] == level[k..];
      PairUpFirst(h, level);
      PairUpFirst(h, level[..k]);
    }
  }

  lemma PairUpNone(h: Hash)
    ensures PairUp(h, []) == []
  {
  }

  lemma PairUpFirst(h: Hash, level: seq<Bytes>)
    requires |level| >= 2
    ensures PairUp(h, level) == [h([1] + level[0] + level[1])] + PairUp(h, level[2..])
  {
  }

  lemma SplitHalves(n: nat)
    requires n > 2
    ensures SplitPoint(n) % 2 == 0 && SplitPoint((n + 1) / 2) == SplitPoint(n) / 2
  {
    assert (n + 1) / 2 - 1 == (n - 1) / 2;
  }

  lemma {:induction false} LevelSplit(h: Hash, level: seq<Bytes>)
    requires |level| >= 2
    ensures var k := SplitPoint(|level|);
            LevelHash(h, level) == h([1] + LevelHash(h, level[..k]) + LevelHash(h, level[k..]))
    decreases |level|
  {
    hide SplitPoint, PairUp, LevelHash;
    var n, k := |level|, SplitPoint(|level|);
    if n == 2 {
      LevelOfTwo(h, level);
    } else {
      SplitHalves(n);
      PairUpSplit(h, level, k);
      var up, left, right := PairUp(h, level), PairUp(h, level[..k]), PairUp(h, level[k..]);
      LevelSplit(h, up);
      assert |left| == k / 2;
      assert up[..k / 2] == left && up[k / 2..] == right;
      CarriedUp(h, level);
      CarriedUp(h, level[..k]);
      CarriedUp(h, level[k..]);
    }
  }

  lemma LevelOfTwo(h: Hash, level: seq<Bytes>)
    requires |level| == 2
    ensures LevelHash(h, level) == h([1] + LevelHash(h, level[..1]) + LevelHash(h, level[1..]))
  {
    assert PairUp(h, level) == [h([1] + level[0] + level[1])];
  }

  lemma CarriedUp(h: Hash, level: seq<Bytes>)
    requires level != []
    ensures LevelHash(h, PairUp(h, level)) == LevelHash(h, level)
  {
  }

  // The recursion is the level-by-level tree; without leaves it is the hash of nothing.
  lemma {:induction false} TreeIsLevels(h: Hash, leaves: seq<Bytes>)
    ensures TreeHash(h, leaves) == if leaves == [] then h([]) else LevelHash(h, LeafLevel(h, leaves))
    decreases |leaves|
  {
    hide SplitPoint, LevelHash;
    if |leaves| == 1 {
      LevelOfOne(h, LeafLevel(h, leaves));
    } else if |leaves| >= 2 {
      var k, level := SplitPoint(|leaves|), LeafLevel(h, leaves);
      LevelSplit(h, level);
      TreeIsLevels(h, leaves[..k]);
      TreeIsLevels(h, leaves[k..]);
      assert LeafLevel(h, leaves[..k]) == level[..k] && LeafLevel(h, leaves[k..]) == level[k..];
    }
  }

  lemma LevelOfOne(h: Hash, level: seq<Bytes>)
    requires |level| == 1
    ensures LevelHash(h, level) == level[0]
  {
  }
}
