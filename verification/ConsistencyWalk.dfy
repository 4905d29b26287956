/** The iterative verifier of RFC 9162 section 2.1.4.2, shown to be the recursive reading of the proof. */
module ConsistencyWalk {
  import opened Binary
  import opened MerkleTree
  import opened Consistency

  // The verifier's variables, and how far fn and sn have been shifted since the start.
  datatype Acc = Acc(fn: nat, sn: nat, shift: nat, fr: Bytes, sr: Bytes)

  function Half(a: Acc): Acc {
    Acc(a.fn / 2, a.sn / 2, a.shift + 1, a.fr, a.sr)
  }

  // Shift while the low bit of fn is set.
  function SkipOnes(a: Acc): Acc
    decreases a.fn
  {
    if a.fn % 2 == 1 then SkipOnes(Half(a)) else a
  }

  // Shift while the low bit of fn is clear, stopping at zero.
  function SkipZeros(a: Acc): Acc
    decreases a.fn
  {
    if a.fn % 2 == 0 && a.fn != 0 then SkipZeros(Half(a)) else a
  }

  function Start(m: nat, n: nat, seed: Bytes): Acc
    requires 1 <= m <= n
  {
    SkipOnes(Acc(m - 1, n - 1, 0, seed, seed))
  }

  function Step(h: Hash, a: Acc, sibling: Bytes): Acc {
    if a.fn % 2 == 1 || a.fn == a.sn then
      Half(SkipZeros(a.(fr := Pair(h, sibling, a.fr), sr := Pair(h, sibling, a.sr))))
    else
      Half(a.(sr := Pair(h, a.sr, sibling)))
  }

  function Run(h: Hash, a: Acc, siblings: seq<Bytes>): Acc {
    if siblings == [] then a
    else Step(h, Run(h, a, siblings[..|siblings| - 1]), siblings[|siblings| - 1])
  }

  // sn runs out exactly with the siblings, not before.
  predicate Exhausts(h: Hash, a: Acc, siblings: seq<Bytes>) {
    && Run(h, a, siblings).sn == 0
    && forall i :: 0 <= i < |siblings| ==> Run(h, a, siblings[..i]).sn != 0
  }

  lemma RunNone(h: Hash, a: Acc)
    ensures Run(h, a, []) == a
  {
  }

  lemma RunSnoc(h: Hash, a: Acc, siblings: seq<Bytes>, last: Bytes)
    ensures Run(h, a, siblings + [last]) == Step(h, Run(h, a, siblings), last)
  {
    assert (siblings + [last])[..|siblings|] == siblings;
  }

  // ----- The walk over (m, n) does what the walk over one subtree does, until that one ends -----

  // a walks the whole tree and b the subtree at the top split 2^top: on the left fn is the same and sn
  // is all ones below the split; on the right both lost the top bit.
  predicate Below(a: Acc, b: Acc, top: nat, right: bool) {
    && a.fr == b.fr && a.sr == b.sr && a.shift == b.shift <= top
    && var k := Pow2(top - a.shift);
       && b.fn <= b.sn < k
       && if right then a.fn == b.fn + k && a.sn == b.sn + k
          else a.fn == b.fn && b.sn == k - 1 && k <= a.sn < 2 * k
  }

  lemma BelowHalf(a: Acc, b: Acc, top: nat, right: bool)
    requires Below(a, b, top, right) && a.shift < top
    ensures Below(Half(a), Half(b), top, right)
    ensures a.fn % 2 == b.fn % 2
  {
    var k := Pow2(top - a.shift);
    assert k == 2 * Pow2(top - a.shift - 1);
  }

  lemma {:induction false} BelowSkipOnes(a: Acc, b: Acc, top: nat, right: bool)
    requires Below(a, b, top, right) && (right ==> b.fn < b.sn)
    ensures Below(SkipOnes(a), SkipOnes(b), top, right)
    decreases b.fn
  {
    if a.shift < top {
      BelowHalf(a, b, top, right);
      if b.fn % 2 == 1 {
        BelowSkipOnes(Half(a), Half(b), top, right);
      }
    }
  }

  lemma {:induction false} BelowSkipZeros(a: Acc, b: Acc, top: nat, right: bool)
    requires Below(a, b, top, right) && b.fn != 0
    ensures Below(SkipZeros(a), SkipZeros(b), top, right) && SkipZeros(b).fn % 2 == 1
    decreases b.fn
  {
    BelowHalf(a, b, top, right);
    if b.fn % 2 == 0 {
      BelowSkipZeros(Half(a), Half(b), top, right);
    }
  }

  lemma BelowStep(h: Hash, a: Acc, b: Acc, top: nat, right: bool, sibling: Bytes)
    requires Below(a, b, top, right) && b.sn != 0
    ensures Below(Step(h, a, sibling), Step(h, b, sibling), top, right)
  {
    BelowHalf(a, b, top, right);
    if b.fn % 2 == 1 || b.fn == b.sn {
      var a', b' := a.(fr := Pair(h, sibling, a.fr), sr := Pair(h, sibling, a.sr)),
                    b.(fr := Pair(h, sibling, b.fr), sr := Pair(h, sibling, b.sr));
      assert a.fn % 2 == 1 || a.fn == a.sn by {
        if !right && b.fn == b.sn {
          assert b.sn == 2 * Pow2(top - a.shift - 1) - 1;
        }
      }
      BelowSkipZeros(a', b', top, right);
      BelowHalf(SkipZeros(a'), SkipZeros(b'), top, right);
    } else {
      BelowHalf(a.(sr := Pair(h, a.sr, sibling)), b.(sr := Pair(h, b.sr, sibling)), top, right);
    }
  }

  lemma {:induction false} SkipZerosPow2(a: Acc, j: nat)
    requires a.fn == a.sn == Pow2(j)
    ensures SkipZeros(a) == a.(fn := 1, sn := 1, shift := a.shift + j)
    decreases j
  {
    if j > 0 {
      SkipZerosPow2(Half(a), j - 1);
    }
  }

  lemma EvenAbove(j: nat)
    ensures j > 0 ==> Pow2(j) >= 2
  {
  }

  // The subtree is done: one more sibling, the one at the top split, finishes the whole walk.
  lemma LastStep(h: Hash, a: Acc, b: Acc, top: nat, right: bool, last: Bytes)
    requires Below(a, b, top, right) && b.sn == 0
    ensures Step(h, a, last) ==
            if right then Acc(0, 0, top + 1, Pair(h, last, b.fr), Pair(h, last, b.sr))
            else Acc(0, 0, top + 1, b.fr, Pair(h, b.sr, last))
    ensures a.sn != 0
  {
    if right {
      SkipZerosPow2(a.(fr := Pair(h, last, a.fr), sr := Pair(h, last, a.sr)), top - a.shift);
    } else {
      EvenAbove(top - a.shift);
    }
  }

  lemma {:induction false} BelowRun(h: Hash, a: Acc, b: Acc, top: nat, right: bool, siblings: seq<Bytes>)
    requires Below(a, b, top, right)
    requires forall i :: 0 <= i < |siblings| ==> Run(h, b, siblings[..i]).sn != 0
    ensures Below(Run(h, a, siblings), Run(h, b, siblings), top, right)
    decreases |siblings|
  {
    if siblings != [] {
      var init := siblings[..|siblings| - 1];
      forall i | 0 <= i < |init| ensures Run(h, b, init[..i]).sn != 0 {
        assert init[..i] == siblings[..i];
      }
      BelowRun(h, a, b, top, right, init);
      BelowStep(h, Run(h, a, init), Run(h, b, init), top, right, siblings[|siblings| - 1]);
    }
  }

  // sn first reaches zero one sibling after the subtree's does.
  lemma BelowExhausts(h: Hash, a: Acc, b: Acc, top: nat, right: bool, siblings: seq<Bytes>, last: Bytes)
    requires Below(a, b, top, right) && Exhausts(h, b, siblings)
    ensures Exhausts(h, a, siblings + [last])
    ensures Run(h, a, siblings + [last]) ==
            var r := Run(h, b, siblings);
            if right then Acc(0, 0, top + 1, Pair(h, last, r.fr), Pair(h, last, r.sr))
            else Acc(0, 0, top + 1, r.fr, Pair(h, r.sr, last))
  {
    BelowRun(h, a, b, top, right, siblings);
    LastStep(h, Run(h, a, siblings), Run(h, b, siblings), top, right, last);
    RunSnoc(h, a, siblings, last);
    var all := siblings + [last];
    forall i | 0 <= i < |all| ensures Run(h, a, all[..i]).sn != 0 {
      var p := all[..i];
      assert p == siblings[..i];
      forall t | 0 <= t < |p| ensures Run(h, b, p[..t]).sn != 0 {
        assert p[..t] == siblings[..t];
      }
      BelowRun(h, a, b, top, right, p);
      assert i == |siblings| ==> p == siblings;
    }
  }

  lemma {:induction false} SkipOnesAll(a: Acc, j: nat)
    requires a.fn == a.sn == Pow2(j) - 1
    ensures SkipOnes(a) == a.(fn := 0, sn := 0, shift := a.shift + j)
    decreases j
  {
    if j > 0 {
      SkipOnesAll(Half(a), j - 1);
    }
  }

  // The two starting points stand in the relation.
  lemma StartBelow(m: nat, n: nat, seed: Bytes)
    requires 1 <= m < n
    ensures var k := SplitPoint(n);
            var b := if m <= k then Start(m, k, seed) else Start(m - k, n - k, seed);
            Below(Start(m, n, seed), b, Lg(n - 1), m > k)
  {
    var k := SplitPoint(n);
    var a := Acc(m - 1, n - 1, 0, seed, seed);
    var b := if m <= k then Acc(m - 1, k - 1, 0, seed, seed) else Acc(m - k - 1, n - k - 1, 0, seed, seed);
    BelowSkipOnes(a, b, Lg(n - 1), m > k);
  }

  // sn runs out exactly at the end of the path, with the rebuilt roots in fr and sr.
  ghost predicate WalkRebuilds(h: Hash, m: nat, n: nat, path: seq<Bytes>)
    requires 1 <= m <= n && |path| > 0
  {
    var a := Start(m, n, path[0]);
    var r := Run(h, a, path[1..]);
    && Exhausts(h, a, path[1..])
    && Rebuild(h, m, n, path) == Some(Roots(r.fr, r.sr))
    && r.fn == 0 && Pow2(r.shift) >= n
  }

  lemma WalkRebuildsSnoc(h: Hash, m: nat, n: nat, rest: seq<Bytes>, last: Bytes)
    requires 1 <= m < n && |rest| > 0
    requires var k := SplitPoint(n);
             if m <= k then WalkRebuilds(h, m, k, rest) else WalkRebuilds(h, m - k, n - k, rest)
    ensures WalkRebuilds(h, m, n, rest + [last])
  {
    hide Rebuild, Run, Start, Lg, Exhausts, Below;
    var k, top, seed := SplitPoint(n), Lg(n - 1), rest[0];
    assert (rest + [last])[1..] == rest[1..] + [last];
    RebuildUnfold(h, m, n, rest, last);
    StartBelow(m, n, seed);
    if m <= k {
      BelowExhausts(h, Start(m, n, seed), Start(m, k, seed), top, false, rest[1..], last);
    } else {
      BelowExhausts(h, Start(m, n, seed), Start(m - k, n - k, seed), top, true, rest[1..], last);
    }
    assert Pow2(top + 1) == 2 * Pow2(top);
  }

  lemma WalkAlone(h: Hash, m: nat, path: seq<Bytes>)
    requires m >= 1 && IsPow2(m) && |path| == 1
    ensures WalkRebuilds(h, m, m, path)
  {
    IsPow2Lg(m);
    SkipOnesAll(Acc(m - 1, m - 1, 0, path[0], path[0]), Lg(m));
  }

  // Every path of the right length, honest or not.
  lemma {:induction false} LoopIsRecursion(h: Hash, m: nat, n: nat, path: seq<Bytes>)
    requires 1 <= m <= n && (m < n || IsPow2(m)) && |path| == PathLength(m, n)
    ensures WalkRebuilds(h, m, n, path)
    decreases n
  {
    hide Run, SplitPoint, Exhausts;
    if m == n {
      WalkAlone(h, m, path);
    } else {
      var k, last, rest := SplitPoint(n), path[|path| - 1], path[..|path| - 1];
      SplitPointIsPow2(n);
      assert path == rest + [last];
      if m <= k {
        LoopIsRecursion(h, m, k, rest);
      } else {
        LoopIsRecursion(h, m - k, n - k, rest);
      }
      WalkRebuildsSnoc(h, m, n, rest, last);
    }
  }
}
