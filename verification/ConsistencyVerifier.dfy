/** verify_consistency and its traced form, against the recursive reading; what the accumulators mean. */
module ConsistencyVerifier {
  import opened Binary
  import opened MerkleTree
  import opened Consistency
  import opened ConsistencyWalk

  // What a loop that has taken i siblings can see: sn is zero exactly when the path has its right length.
  lemma ZeroAtTheEnd(h: Hash, m: nat, n: nat, path: seq<Bytes>, i: nat)
    requires 1 <= m < n && i < |path| && i < PathLength(m, n)
    ensures Run(h, Start(m, n, path[0]), path[1..][..i]).sn == 0 <==> i == PathLength(m, n) - 1
  {
    hide Run, Start, Rebuild, PathLength;
    var c := PathLength(m, n);
    var p := FittedTo(path, c);
    LoopIsRecursion(h, m, n, p);
    assert p[1..][..i] == path[1..][..i];
    if i == c - 1 {
      assert |p[1..]| == i;
      assert p[1..][..i] == p[1..];
    }
  }

  // The path, cut or filled up to a length.
  function FittedTo(path: seq<Bytes>, c: nat): (p: seq<Bytes>)
    ensures |p| == c && forall i :: 0 <= i < Min(c, |path|) ==> p[i] == path[i]
  {
    if |path| <= c then path + seq(c - |path|, _ => []) else path[..c]
  }

  // At its end, a walk over a path of the right length holds the two roots of the recursive reading.
  lemma RootsAtTheEnd(h: Hash, m: nat, n: nat, path: seq<Bytes>)
    requires 1 <= m < n && |path| > 0
    ensures var r := Run(h, Start(m, n, path[0]), path[1..]);
            Rebuild(h, m, n, path) == if |path| == PathLength(m, n) then Some(Roots(r.fr, r.sr)) else None
  {
    if |path| == PathLength(m, n) {
      LoopIsRecursion(h, m, n, path);
    } else {
      RebuildLength(h, m, n, path);
    }
  }

  lemma RunNext(h: Hash, a: Acc, path: seq<Bytes>, i: nat)
    requires 1 <= i < |path|
    ensures Run(h, a, path[1..][..i]) == Step(h, Run(h, a, path[1..][..i - 1]), path[i])
  {
    RunSnoc(h, a, path[1..][..i - 1], path[i]);
    assert path[1..][..i] == path[1..][..i - 1] + [path[i]];
  }

  method AlignStart(m: nat, n: nat, seed: Bytes) returns (fn: nat, sn: nat, ghost shift: nat)
    requires 1 <= m <= n
    ensures fn == Start(m, n, seed).fn && sn == Start(m, n, seed).sn
    ensures Acc(fn, sn, shift, seed, seed) == Start(m, n, seed)
  {
    fn, sn, shift := m - 1, n - 1, 0;
    while fn % 2 == 1
      invariant SkipOnes(Acc(fn, sn, shift, seed, seed)) == Start(m, n, seed)
      decreases fn
    {
      fn, sn, shift := fn / 2, sn / 2, shift + 1;
    }
  }

  method Fold(h: Hash, fn0: nat, sn0: nat, fr0: Bytes, sr0: Bytes, sibling: Bytes, ghost shift0: nat)
    returns (fn: nat, sn: nat, fr: Bytes, sr: Bytes, ghost shift: nat)
    ensures var a := Step(h, Acc(fn0, sn0, shift0, fr0, sr0), sibling);
            fn == a.fn && sn == a.sn && fr == a.fr && sr == a.sr && shift == a.shift
  {
    fn, sn, fr, sr, shift := fn0, sn0, fr0, sr0, shift0;
    if fn % 2 == 1 || fn == sn {
      fr := Pair(h, sibling, fr);
      sr := Pair(h, sibling, sr);
      ghost var aligned := SkipZeros(Acc(fn, sn, shift, fr, sr));
      while fn % 2 != 1 && fn != 0
        invariant SkipZeros(Acc(fn, sn, shift, fr, sr)) == aligned
        decreases fn
      {
        fn, sn, shift := fn / 2, sn / 2, shift + 1;
      }
    } else {
      sr := Pair(h, sr, sibling);
    }
    fn, sn, shift := fn / 2, sn / 2, shift + 1;
  }

  // A hex argument, or None where bytes.fromhex raises.
  predicate AllDecoded(proof: seq<Option<Bytes>>) {
    forall i :: 0 <= i < |proof| ==> proof[i].Some?
  }

  function Decoded(proof: seq<Option<Bytes>>): (path: seq<Bytes>)
    requires AllDecoded(proof)
    ensures |path| == |proof| && forall i :: 0 <= i < |path| ==> path[i] == proof[i].value
  {
    seq(|proof|, i requires 0 <= i < |proof| => proof[i].value)
  }

  method VerifyConsistency(h: Hash, oldRoot: Option<Bytes>, oldSize: int, newRoot: Option<Bytes>, newSize: int,
                           proof: seq<Option<Bytes>>)
    returns (ok: bool)
    ensures ok <==> oldRoot.Some? && newRoot.Some? && AllDecoded(proof)
                    && Accepts(h, oldRoot.value, oldSize, newRoot.value, newSize, Decoded(proof))
  {
    hide Run, Start, PathLength, Rebuild;
    if oldSize < 1 || newSize < oldSize {
      return false;
    }
    if oldRoot.None? || newRoot.None? || !AllDecoded(proof) {
      return false;
    }
    var oldHash, newHash, path := oldRoot.value, newRoot.value, Decoded(proof);
    if oldSize == newSize {
      return path == [] && oldHash == newHash;
    }
    if path == [] {
      RootsOfNothing(h, oldHash, oldSize, newSize);
      return false;
    }
    PowerOfTwoTest(oldSize);
    if BitAnd(oldSize, oldSize - 1) == 0 {
      path := [oldHash] + path;
    }
    assert path == Path(oldHash, oldSize, Decoded(proof));
    ghost var a := Start(oldSize, newSize, path[0]);
    ghost var shift;
    var fn, sn;
    fn, sn, shift := AlignStart(oldSize, newSize, path[0]);
    RunNone(h, a);
    var fr, sr := path[0], path[0];
    for i := 1 to |path|
      invariant i <= PathLength(oldSize, newSize)
      invariant Acc(fn, sn, shift, fr, sr) == Run(h, a, path[1..][..i - 1])
    {
      ZeroAtTheEnd(h, oldSize, newSize, path, i - 1);
      if sn == 0 {
        RootsAtTheEnd(h, oldSize, newSize, path);
        return false;
      }
      RunNext(h, a, path, i);
      fn, sn, fr, sr, shift := Fold(h, fn, sn, fr, sr, path[i], shift);
    }
    assert path[1..][..|path| - 1] == path[1..];
    ZeroAtTheEnd(h, oldSize, newSize, path, |path| - 1);
    RootsAtTheEnd(h, oldSize, newSize, path);
    return fr == oldHash && sr == newHash && sn == 0;
  }

  lemma RootsOfNothing(h: Hash, oldRoot: Bytes, m: nat, n: nat)
    requires 1 <= m < n
    ensures Rebuild(h, m, n, Path(oldRoot, m, [])).None?
  {
    RebuildLength(h, m, n, Path(oldRoot, m, []));
  }

  // ----- The traced verifier -----

  datatype Fail =
    | NoFail
    | SizeRange
    | EqualSizeMismatch
    | EmptyProof
    | ProofTooLong
    | OldRootMismatch
    | NewRootMismatch
    | ProofTooShort

  // The reason, told from lengths and from the roots the walk ends with.
  function Reason(h: Hash, oldRoot: Bytes, m: int, newRoot: Bytes, n: int, proof: seq<Bytes>): Fail {
    if m < 1 || n < m then SizeRange
    else if m == n then (if proof == [] && oldRoot == newRoot then NoFail else EqualSizeMismatch)
    else if proof == [] then EmptyProof
    else
      var path := Path(oldRoot, m, proof);
      var r := Run(h, Start(m, n, path[0]), path[1..]);
      if |path| > PathLength(m, n) then ProofTooLong
      else if r.fr != oldRoot then OldRootMismatch
      else if r.sr != newRoot then NewRootMismatch
      else if |path| < PathLength(m, n) then ProofTooShort
      else NoFail
  }

  // The sizes and emptiness tests come first; after them the walk starts.
  predicate Walks(m: int, n: int, proof: seq<Bytes>) {
    1 <= m < n && proof != []
  }

  // frTrace and srTrace hold the accumulators before each sibling taken, and after the last.
  ghost predicate Traces(h: Hash, a: Acc, path: seq<Bytes>, frTrace: seq<Bytes>, srTrace: seq<Bytes>) {
    && |frTrace| == |srTrace| <= |path|
    && forall i :: 0 <= i < |frTrace| ==>
         frTrace[i] == Run(h, a, path[1..][..i]).fr && srTrace[i] == Run(h, a, path[1..][..i]).sr
  }

  method WalkTraced(h: Hash, m: nat, n: nat, path: seq<Bytes>)
    returns (tooLong: bool, fr: Bytes, sr: Bytes, sn: nat, frTrace: seq<Bytes>, srTrace: seq<Bytes>)
    requires 1 <= m < n && |path| > 0
    ensures var a := Start(m, n, path[0]);
            && (tooLong <==> |path| > PathLength(m, n))
            && Traces(h, a, path, frTrace, srTrace)
            && |frTrace| == |srTrace| == Min(|path|, PathLength(m, n)) > 0
            && (!tooLong ==>
                  && fr == frTrace[|frTrace| - 1] && sr == srTrace[|srTrace| - 1]
                  && fr == Run(h, a, path[1..]).fr && sr == Run(h, a, path[1..]).sr
                  && (sn == 0 <==> |path| == PathLength(m, n)))
  {
    hide Run, Start, PathLength;
    ghost var a := Start(m, n, path[0]);
    ghost var shift;
    var fn;
    fn, sn, shift := AlignStart(m, n, path[0]);
    RunNone(h, a);
    tooLong, fr, sr := false, path[0], path[0];
    frTrace, srTrace := [fr], [sr];
    for i := 1 to |path|
      invariant i <= PathLength(m, n)
      invariant Acc(fn, sn, shift, fr, sr) == Run(h, a, path[1..][..i - 1])
      invariant |frTrace| == i && Traces(h, a, path, frTrace, srTrace)
    {
      ZeroAtTheEnd(h, m, n, path, i - 1);
      if sn == 0 {
        tooLong := true;
        return;
      }
      RunNext(h, a, path, i);
      fn, sn, fr, sr, shift := Fold(h, fn, sn, fr, sr, path[i], shift);
      frTrace, srTrace := frTrace + [fr], srTrace + [sr];
    }
    assert path[1..][..|path| - 1] == path[1..];
    ZeroAtTheEnd(h, m, n, path, |path| - 1);
  }

  method VerifyConsistencyTraced(h: Hash, oldRoot: Bytes, oldSize: int, newRoot: Bytes, newSize: int, proof: seq<Bytes>)
    returns (ok: bool, fail: Fail, frTrace: seq<Bytes>, srTrace: seq<Bytes>)
    ensures ok <==> Accepts(h, oldRoot, oldSize, newRoot, newSize, proof)
    ensures ok <==> fail == NoFail
    ensures fail == Reason(h, oldRoot, oldSize, newRoot, newSize, proof)
    // Each reason by what is wrong; the last pair recorded is what the roots are compared with.
    ensures fail == SizeRange <==> oldSize < 1 || newSize < oldSize
    ensures fail == EqualSizeMismatch <==> 1 <= oldSize == newSize && (proof != [] || oldRoot != newRoot)
    ensures fail == EmptyProof <==> 1 <= oldSize < newSize && proof == []
    ensures fail == ProofTooLong <==>
              && 1 <= oldSize < newSize && proof != []
              && |proof| + (if IsPow2(oldSize) then 1 else 0) > PathLength(oldSize, newSize)
    ensures 1 <= oldSize < newSize && proof != [] ==> |frTrace| == |srTrace| > 0
    ensures 1 <= oldSize < newSize && proof != [] && fail != ProofTooLong ==>
              var fr, sr := frTrace[|frTrace| - 1], srTrace[|srTrace| - 1];
              && (fail == OldRootMismatch <==> fr != oldRoot)
              && (fail == NewRootMismatch <==> fr == oldRoot && sr != newRoot)
              && (fail == ProofTooShort <==>
                    && fr == oldRoot && sr == newRoot
                    && |proof| + (if IsPow2(oldSize) then 1 else 0) < PathLength(oldSize, newSize))
    ensures !Walks(oldSize, newSize, proof) ==> frTrace == srTrace == []
    ensures Walks(oldSize, newSize, proof) ==>
              var path := Path(oldRoot, oldSize, proof);
              && |frTrace| == Min(|path|, PathLength(oldSize, newSize))
              && Traces(h, Start(oldSize, newSize, path[0]), path, frTrace, srTrace)
  {
    hide Run, Start, PathLength, Rebuild, IsPow2, BitAnd;
    frTrace, srTrace := [], [];
    if oldSize < 1 || newSize < oldSize {
      return false, SizeRange, [], [];
    }
    if oldSize == newSize {
      if proof == [] && oldRoot == newRoot {
        return true, NoFail, [], [];
      }
      return false, EqualSizeMismatch, [], [];
    }
    if proof == [] {
      RootsOfNothing(h, oldRoot, oldSize, newSize);
      return false, EmptyProof, [], [];
    }
    var path := proof;
    PowerOfTwoTest(oldSize);
    if BitAnd(oldSize, oldSize - 1) == 0 {
      path := [oldRoot] + path;
    }
    RootsAtTheEnd(h, oldSize, newSize, path);
    var tooLong, fr, sr, sn;
    tooLong, fr, sr, sn, frTrace, srTrace := WalkTraced(h, oldSize, newSize, path);
    if tooLong {
      return false, ProofTooLong, frTrace, srTrace;
    }
    if fr != oldRoot {
      return false, OldRootMismatch, frTrace, srTrace;
    }
    if sr != newRoot {
      return false, NewRootMismatch, frTrace, srTrace;
    }
    if sn != 0 {
      return false, ProofTooShort, frTrace, srTrace;
    }
    return true, NoFail, frTrace, srTrace;
  }

  // ----- What the accumulators are on an honest proof -----

  // x << s
  function Shl(x: nat, s: nat): nat {
    if s == 0 then x else 2 * Shl(x, s - 1)
  }

  // x >> s
  function Shr(x: nat, s: nat): nat {
    if s == 0 then x else Shr(x, s - 1) / 2
  }

  lemma {:induction false} ShlAdd(x: nat, y: nat, s: nat)
    ensures Shl(x + y, s) == Shl(x, s) + Shl(y, s)
  {
    if s > 0 {
      ShlAdd(x, y, s - 1);
    }
  }

  lemma {:induction false} ShlPow2(j: nat, s: nat)
    ensures Shl(Pow2(j), s) == Pow2(j + s)
  {
    if s > 0 {
      ShlPow2(j, s - 1);
    }
  }

  function Lo(a: Acc): nat {
    Shl(a.fn, a.shift)
  }

  function Hi(a: Acc, n: nat): int {
    Min(Shl(a.fn + 1, a.shift), n)
  }

  function Mth(h: Hash): seq<Bytes> -> Bytes {
    leaves => TreeHash(h, leaves)
  }

  // fr is the hash of the part of the old tree, and sr of the part of the new tree, that lie in the
  // block of 2^shift leaves numbered fn.
  ghost predicate Spans(mth: seq<Bytes> -> Bytes, a: Acc, m: nat, leaves: seq<Bytes>) {
    && 0 <= Lo(a) < m <= Hi(a, |leaves|) <= |leaves|
    && a.fr == mth(leaves[Lo(a)..m])
    && a.sr == mth(leaves[Lo(a)..Hi(a, |leaves|)])
  }

  lemma SliceOfTake<T>(s: seq<T>, k: nat, lo: nat, hi: nat)
    requires lo <= hi <= k <= |s|
    ensures s[..k][lo..hi] == s[lo..hi]
  {
  }

  lemma SliceOfDrop<T>(s: seq<T>, k: nat, lo: nat, hi: nat)
    requires k <= |s| && lo <= hi <= |s| - k
    ensures s[k..][lo..hi] == s[lo + k..hi + k]
  {
  }

  lemma SpansLeft(mth: seq<Bytes> -> Bytes, a: Acc, b: Acc, top: nat, m: nat, leaves: seq<Bytes>, k: nat)
    requires Below(a, b, top, false) && k == Pow2(top) <= |leaves|
    requires Spans(mth, b, m, leaves[..k])
    ensures Spans(mth, a, m, leaves)
  {
    BlockInside(b.fn, top, a.shift);
    SliceOfTake(leaves, k, Lo(b), m);
    SliceOfTake(leaves, k, Lo(b), Hi(b, k));
  }

  lemma SpansRight(mth: seq<Bytes> -> Bytes, a: Acc, b: Acc, top: nat, m: nat, leaves: seq<Bytes>, k: nat)
    requires Below(a, b, top, true) && k == Pow2(top) < m && k <= |leaves|
    requires Spans(mth, b, m - k, leaves[k..])
    ensures Spans(mth, a, m, leaves)
  {
    hide Pow2, Shl;
    BlockShifted(b.fn, top, a.shift);
    SliceOfDrop(leaves, k, Lo(b), m - k);
    SliceOfDrop(leaves, k, Lo(b), Hi(b, |leaves| - k));
  }

  lemma BlockInside(x: nat, top: nat, s: nat)
    requires s <= top && x < Pow2(top - s)
    ensures Shl(x + 1, s) <= Pow2(top)
  {
    ShlAdd(x + 1, Pow2(top - s) - (x + 1), s);
    ShlPow2(top - s, s);
  }

  lemma BlockShifted(x: nat, top: nat, s: nat)
    requires s <= top
    ensures Shl(x + Pow2(top - s), s) == Shl(x, s) + Pow2(top)
    ensures Shl(x + Pow2(top - s) + 1, s) == Shl(x + 1, s) + Pow2(top)
  {
    ShlAdd(x, Pow2(top - s), s);
    ShlAdd(x + 1, Pow2(top - s), s);
    ShlPow2(top - s, s);
    assert x + Pow2(top - s) + 1 == x + 1 + Pow2(top - s);
  }

  // The span found in the subtree at the top split is the span in the whole tree.
  lemma TraceLift(h: Hash, m: nat, leaves: seq<Bytes>, i: nat, m': nat, part: seq<Bytes>, seed: Bytes, siblings: seq<Bytes>)
    requires 1 <= m < |leaves|
    requires var k := SplitPoint(|leaves|);
             if m <= k then m' == m && part == leaves[..k] else m' == m - k && part == leaves[k..]
    requires i <= |siblings| && Exhausts(h, Start(m', |part|, seed), siblings)
    requires Spans(Mth(h), Run(h, Start(m', |part|, seed), siblings[..i]), m', part)
    ensures Spans(Mth(h), Run(h, Start(m, |leaves|, seed), siblings[..i]), m, leaves)
  {
    hide Lg, Start, Run, Spans, Below;
    var n := |leaves|;
    var k, top, p := SplitPoint(n), Lg(n - 1), siblings[..i];
    StartBelow(m, n, seed);
    var a0, b0 := Start(m, n, seed), Start(m', |part|, seed);
    forall t | 0 <= t < |p| ensures Run(h, b0, p[..t]).sn != 0 {
      assert p[..t] == siblings[..t];
    }
    BelowRun(h, a0, b0, top, m > k, p);
    if m <= k {
      SpansLeft(Mth(h), Run(h, a0, p), Run(h, b0, p), top, m, leaves, k);
    } else {
      SpansRight(Mth(h), Run(h, a0, p), Run(h, b0, p), top, m, leaves, k);
    }
  }

  lemma HonestPath(h: Hash, m: nat, leaves: seq<Bytes>)
    requires 1 <= m <= |leaves|
    ensures |SubProof(h, m, leaves, false)| == PathLength(m, |leaves|)
  {
    RebuildHonest(h, m, leaves);
    RebuildLength(h, m, |leaves|, SubProof(h, m, leaves, false));
  }

  // The accumulators after i siblings of a path.
  ghost predicate TraceSpans(h: Hash, m: nat, leaves: seq<Bytes>, path: seq<Bytes>, i: nat)
    requires 1 <= m <= |leaves| && i < |path|
  {
    Spans(Mth(h), Run(h, Start(m, |leaves|, path[0]), path[1..][..i]), m, leaves)
  }

  lemma TraceSpansSnoc(h: Hash, m: nat, leaves: seq<Bytes>, i: nat, m': nat, part: seq<Bytes>,
                       rest: seq<Bytes>, last: Bytes)
    requires 1 <= m < |leaves|
    requires var k := SplitPoint(|leaves|);
             if m <= k then m' == m && part == leaves[..k] else m' == m - k && part == leaves[k..]
    requires (m' < |part| || IsPow2(m')) && |rest| == PathLength(m', |part|)
    requires i < |rest| && TraceSpans(h, m', part, rest, i)
    ensures TraceSpans(h, m, leaves, rest + [last], i)
  {
    hide Run, Start, PathLength, Rebuild;
    LoopIsRecursion(h, m', |part|, rest);
    TraceLift(h, m, leaves, i, m', part, rest[0], rest[1..]);
    assert (rest + [last])[1..][..i] == rest[1..][..i];
  }

  lemma {:induction false} TraceMeaning(h: Hash, m: nat, leaves: seq<Bytes>, i: nat)
    requires 1 <= m <= |leaves| && (m < |leaves| || IsPow2(m))
    requires i < |SubProof(h, m, leaves, false)|
    ensures TraceSpans(h, m, leaves, SubProof(h, m, leaves, false), i)
    decreases |leaves|
  {
    hide SplitPoint, TraceSpans, TreeHash, PathLength;
    var n, path := |leaves|, SubProof(h, m, leaves, false);
    HonestPath(h, m, leaves);
    if i == |path| - 1 {
      TraceEnd(h, m, leaves);
    } else {
      var k := SplitPoint(n);
      SplitPointIsPow2(n);
      if m <= k {
        HonestPath(h, m, leaves[..k]);
        TraceMeaning(h, m, leaves[..k], i);
        TraceSpansSnoc(h, m, leaves, i, m, leaves[..k], SubProof(h, m, leaves[..k], false), TreeHash(h, leaves[k..]));
      } else {
        HonestPath(h, m - k, leaves[k..]);
        TraceMeaning(h, m - k, leaves[k..], i);
        TraceSpansSnoc(h, m, leaves, i, m - k, leaves[k..], SubProof(h, m - k, leaves[k..], false), TreeHash(h, leaves[..k]));
      }
    }
  }

  lemma TraceEnd(h: Hash, m: nat, leaves: seq<Bytes>)
    requires 1 <= m <= |leaves| && (m < |leaves| || IsPow2(m))
    ensures var path := SubProof(h, m, leaves, false);
            |path| > 0 && TraceSpans(h, m, leaves, path, |path| - 1)
  {
    hide SplitPoint, TreeHash, PathLength, SubProof, Rebuild, Run, Exhausts, Start, Spans, IsPow2;
    var n, path := |leaves|, SubProof(h, m, leaves, false);
    HonestPath(h, m, leaves);
    RebuildHonest(h, m, leaves);
    LoopIsRecursion(h, m, n, path);
    assert path[1..][..|path| - 1] == path[1..];
    WholeSpan(Mth(h), Run(h, Start(m, n, path[0]), path[1..]), m, leaves);
  }

  lemma WholeSpan(mth: seq<Bytes> -> Bytes, a: Acc, m: nat, leaves: seq<Bytes>)
    requires 1 <= m <= |leaves| && a.fn == 0 && Pow2(a.shift) >= |leaves|
    requires a.fr == mth(leaves[..m]) && a.sr == mth(leaves)
    ensures Spans(mth, a, m, leaves)
  {
    ShlPow2(0, a.shift);
    ShlAdd(0, 0, a.shift);
    SliceOfTake(leaves, |leaves|, 0, m);
    assert leaves[0..|leaves|] == leaves && leaves[0..m] == leaves[..m];
  }

  // fn and sn are the last leaf's index in each tree, shifted.
  predicate Shifted(a: Acc, m: nat, n: nat)
    requires 1 <= m <= n
  {
    a.fn == Shr(m - 1, a.shift) && a.sn == Shr(n - 1, a.shift)
  }

  lemma {:induction false} ShiftedSkips(a: Acc, m: nat, n: nat)
    requires 1 <= m <= n && Shifted(a, m, n)
    ensures Shifted(SkipOnes(a), m, n) && Shifted(SkipZeros(a), m, n)
    decreases a.fn
  {
    if a.fn != 0 {
      ShiftedSkips(Half(a), m, n);
    }
  }

  lemma {:induction false} RunShifts(h: Hash, m: nat, n: nat, seed: Bytes, siblings: seq<Bytes>)
    requires 1 <= m <= n
    ensures Shifted(Run(h, Start(m, n, seed), siblings), m, n)
    decreases |siblings|
  {
    if siblings == [] {
      ShiftedSkips(Acc(m - 1, n - 1, 0, seed, seed), m, n);
    } else {
      var init, x := siblings[..|siblings| - 1], siblings[|siblings| - 1];
      RunShifts(h, m, n, seed, init);
      var a := Run(h, Start(m, n, seed), init);
      var both := a.(fr := Pair(h, x, a.fr), sr := Pair(h, x, a.sr));
      ShiftedSkips(both, m, n);
    }
  }

  // The block of 2^shift leaves that holds the last leaf of the old tree: fr hashes the part of it in the
  // old tree, sr the part in the new one.
  ghost predicate Block(mth: seq<Bytes> -> Bytes, m: nat, leaves: seq<Bytes>, shift: nat, fr: Bytes, sr: Bytes)
    requires 1 <= m <= |leaves|
  {
    var number := Shr(m - 1, shift);
    var lo, hi := Shl(number, shift), Min(Shl(number + 1, shift), |leaves|);
    0 <= lo < m <= hi && fr == mth(leaves[lo..m]) && sr == mth(leaves[lo..hi])
  }

  lemma TraceIsBlock(h: Hash, m: nat, leaves: seq<Bytes>, i: nat)
    requires 1 <= m < |leaves| && i < |SubProof(h, m, leaves, false)|
    ensures var path := SubProof(h, m, leaves, false);
            var a := Run(h, Start(m, |leaves|, path[0]), path[1..][..i]);
            Block(Mth(h), m, leaves, a.shift, a.fr, a.sr)
  {
    hide Run, Start, SubProof, Shr, Shl, Mth;
    var path := SubProof(h, m, leaves, false);
    TraceMeaning(h, m, leaves, i);
    RunShifts(h, m, |leaves|, path[0], path[1..][..i]);
  }

  // On an honest proof the traced verifier accepts, and what it records are the hashes of such blocks.
  method TraceHonest(h: Hash, leaves: seq<Bytes>, m: nat)
    returns (ok: bool, frTrace: seq<Bytes>, srTrace: seq<Bytes>, ghost shifts: seq<nat>)
    requires 1 <= m < |leaves|
    ensures ok && |frTrace| == |srTrace| == |shifts| == PathLength(m, |leaves|)
    ensures forall i :: 0 <= i < |shifts| ==> Block(Mth(h), m, leaves, shifts[i], frTrace[i], srTrace[i])
  {
    hide Accepts, Run, Start, TreeHash, SubProof, PathLength, Reason, Block, IsPow2;
    Completeness(h, leaves, m);
    CompleteDropsTheOldRoot(h, m, leaves);
    HonestPath(h, m, leaves);
    var oldRoot, proof := TreeHash(h, leaves[..m]), ConsistencyProof(h, leaves, m).value;
    var fail;
    ok, fail, frTrace, srTrace := VerifyConsistencyTraced(h, oldRoot, m, TreeHash(h, leaves), |leaves|, proof);
    ghost var path := SubProof(h, m, leaves, false);
    assert path == Path(oldRoot, m, proof);
    ghost var a := Start(m, |leaves|, path[0]);
    assert proof != [] by {
      HonestNonempty(h, m, leaves);
    }
    shifts := seq(|path|, i requires 0 <= i < |path| => Run(h, a, path[1..][..i]).shift);
    forall i | 0 <= i < |shifts| ensures Block(Mth(h), m, leaves, shifts[i], frTrace[i], srTrace[i]) {
      TraceIsBlock(h, m, leaves, i);
    }
  }

  lemma HonestNonempty(h: Hash, m: nat, leaves: seq<Bytes>)
    requires 1 <= m < |leaves|
    ensures |SubProof(h, m, leaves, true)| > 0
  {
  }

  // ----- One change to an honest input -----

  // The seed is the old root throughout when the old size is a power of two.
  lemma {:induction false} SeedIsOldRoot(h: Hash, m: nat, n: nat, path: seq<Bytes>)
    requires 1 <= m <= n && IsPow2(m) && Rebuild(h, m, n, path).Some?
    ensures Rebuild(h, m, n, path).value.first == path[0]
    decreases n
  {
    if m < n {
      var k := SplitPoint(n);
      Pow2BelowSplit(m, n);
      SeedIsOldRoot(h, m, k, path[..|path| - 1]);
    }
  }

  lemma Pow2BelowSplit(m: nat, n: nat)
    requires 1 <= m < n && IsPow2(m)
    ensures m <= SplitPoint(n)
  {
    if m > SplitPoint(n) {
      Pow2Between(Lg(n - 1), m);
    }
  }

  // What the walk over a whole path ends with.
  lemma EndOfTrace(h: Hash, m: nat, n: nat, path: seq<Bytes>, frTrace: seq<Bytes>, srTrace: seq<Bytes>)
    requires 1 <= m < n && |path| == PathLength(m, n) == |frTrace|
    requires Traces(h, Start(m, n, path[0]), path, frTrace, srTrace)
    ensures Rebuild(h, m, n, path) == Some(Roots(frTrace[|frTrace| - 1], srTrace[|srTrace| - 1]))
  {
    hide Run, Start, Rebuild, PathLength;
    RootsAtTheEnd(h, m, n, path);
    assert path[1..][..|path| - 1] == path[1..];
  }

  lemma HonestProofPath(h: Hash, leaves: seq<Bytes>, m: nat)
    requires 1 <= m < |leaves|
    ensures var proof := ConsistencyProof(h, leaves, m).value;
            && proof != [] && Path(TreeHash(h, leaves[..m]), m, proof) == SubProof(h, m, leaves, false)
            && |proof| + (if IsPow2(m) then 1 else 0) == PathLength(m, |leaves|)
  {
    hide SplitPoint, TreeHash, PathLength, IsPow2;
    CompleteDropsTheOldRoot(h, m, leaves);
    HonestPath(h, m, leaves);
    HonestNonempty(h, m, leaves);
  }

  // Another old root with the honest proof.
  method ForgedOldRoot(h: Hash, leaves: seq<Bytes>, m: nat, forged: Bytes) returns (fail: Fail)
    requires 1 <= m < |leaves| && forged != TreeHash(h, leaves[..m])
    ensures !IsPow2(m) ==> fail == OldRootMismatch
    // A power of two folds from the forged root itself, so it is the new root that tells.
    ensures IsPow2(m) && |forged| == 32 ==>
              var found := AcceptanceCollision(h, forged, m, leaves, ConsistencyProof(h, leaves, m).value);
              fail == NewRootMismatch || (found.Some? && Collides(h, found.value.0, found.value.1))
  {
    hide Accepts, Run, Start, TreeHash, SubProof, PathLength, Reason, IsPow2, Rebuild, AcceptanceCollision;
    var n, proof := |leaves|, ConsistencyProof(h, leaves, m).value;
    HonestProofPath(h, leaves, m);
    RebuildHonest(h, m, leaves);
    var newRoot := TreeHash(h, leaves);
    var ok, frTrace, srTrace;
    ok, fail, frTrace, srTrace := VerifyConsistencyTraced(h, forged, m, newRoot, n, proof);
    EndOfTrace(h, m, n, Path(forged, m, proof), frTrace, srTrace);
    if IsPow2(m) {
      SeedIsOldRoot(h, m, n, Path(forged, m, proof));
      if ok && |forged| == 32 {
        AcceptanceExact(h, forged, m, leaves, proof);
        SeedIsForged(forged, m, n, proof);
      }
    }
  }

  lemma SeedIsForged(forged: Bytes, m: nat, n: nat, proof: seq<Bytes>)
    requires IsPow2(m) && |forged| == 32
    ensures SeedFits(forged, m, n, proof)
  {
  }

  // Another new root with the honest proof.
  method ForgedNewRoot(h: Hash, leaves: seq<Bytes>, m: nat, forged: Bytes) returns (fail: Fail)
    requires 1 <= m < |leaves| && forged != TreeHash(h, leaves)
    ensures fail == NewRootMismatch
  {
    hide Accepts, Run, Start, TreeHash, SubProof, PathLength, Reason, IsPow2, Rebuild;
    var n, proof := |leaves|, ConsistencyProof(h, leaves, m).value;
    HonestProofPath(h, leaves, m);
    RebuildHonest(h, m, leaves);
    var oldRoot := TreeHash(h, leaves[..m]);
    var ok, frTrace, srTrace;
    ok, fail, frTrace, srTrace := VerifyConsistencyTraced(h, oldRoot, m, forged, n, proof);
    EndOfTrace(h, m, n, Path(oldRoot, m, proof), frTrace, srTrace);
  }

  // One element too many or too few, whatever it is and whatever the roots.
  method WrongLength(h: Hash, leaves: seq<Bytes>, m: nat, oldRoot: Bytes, newRoot: Bytes, extra: Bytes)
    returns (longer: Fail, shorter: Fail)
    requires 1 <= m < |leaves|
    ensures longer == ProofTooLong
    ensures if |ConsistencyProof(h, leaves, m).value| == 1 then shorter == EmptyProof
            else shorter in {OldRootMismatch, NewRootMismatch, ProofTooShort}
  {
    hide Accepts, Run, Start, TreeHash, SubProof, PathLength, Reason, IsPow2, Rebuild;
    var n, proof := |leaves|, ConsistencyProof(h, leaves, m).value;
    HonestProofPath(h, leaves, m);
    var ok, frTrace, srTrace;
    ok, longer, frTrace, srTrace := VerifyConsistencyTraced(h, oldRoot, m, newRoot, n, proof + [extra]);
    ok, shorter, frTrace, srTrace := VerifyConsistencyTraced(h, oldRoot, m, newRoot, n, proof[..|proof| - 1]);
  }
}
