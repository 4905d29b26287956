/** read_last_line: the backward chunked search for a file's last line is its one-pass definition. */
module TailReader {
  import opened Binary

  const LF: byte := 10
  const CR: byte := 13

  // b.rstrip(b"\r\n")
  function StripEnd(b: Bytes): (r: Bytes)
    ensures r <= b
    ensures r != [] ==> r[|r| - 1] != LF && r[|r| - 1] != CR
  {
    if b != [] && (b[|b| - 1] == LF || b[|b| - 1] == CR) then StripEnd(b[..|b| - 1]) else b
  }

  // b.rfind(b"\n")
  function LastLf(b: Bytes): (i: int)
    ensures -1 <= i < |b|
  {
    if b == [] then -1
    else if b[|b| - 1] == LF then |b| - 1
    else LastLf(b[..|b| - 1])
  }

  // What follows the last newline once trailing CR and LF are gone; None when nothing is left.
  function LastLine(file: Bytes): Option<Bytes> {
    var trimmed := StripEnd(file);
    if trimmed == [] then None else Some(trimmed[LastLf(trimmed) + 1..])
  }

  predicate LineEnds(b: Bytes) {
    forall i :: 0 <= i < |b| ==> b[i] == 10 || b[i] == 13
  }

  lemma {:induction false} StripEndLeaves(b: Bytes) returns (ends: Bytes)
    ensures b == StripEnd(b) + ends && LineEnds(ends)
    decreases |b|
  {
    if b != [] && (b[|b| - 1] == LF || b[|b| - 1] == CR) {
      var init := StripEndLeaves(b[..|b| - 1]);
      ends := init + [b[|b| - 1]];
    } else {
      ends := [];
    }
  }

  lemma {:induction false} LastLfIsLast(b: Bytes)
    ensures LastLf(b) >= 0 ==> b[LastLf(b)] == 10
    ensures forall i :: LastLf(b) < i < |b| ==> b[i] != 10
    decreases |b|
  {
    if b != [] && b[|b| - 1] != LF {
      LastLfIsLast(b[..|b| - 1]);
    }
  }

  // What the last line is: the file is something that is empty or ends in LF, then the line, which is not
  // empty, has no LF and does not end in CR, then only CR and LF. There is none if the file is all CR and LF.
  lemma LastLineIs(file: Bytes) returns (front: Bytes, ends: Bytes)
    ensures LastLine(file).None? <==> LineEnds(file)
    ensures LastLine(file).Some? ==>
              var line := LastLine(file).value;
              && file == front + line + ends && LineEnds(ends)
              && (front != [] ==> front[|front| - 1] == 10)
              && line != [] && line[|line| - 1] != 13 && forall i :: 0 <= i < |line| ==> line[i] != 10
  {
    hide StripEnd, LastLf;
    ends := StripEndLeaves(file);
    var trimmed := StripEnd(file);
    LastLfIsLast(trimmed);
    front := [];
    if trimmed != [] {
      front := trimmed[..LastLf(trimmed) + 1];
      assert trimmed == front + trimmed[LastLf(trimmed) + 1..];
      assert file[|trimmed| - 1] == trimmed[|trimmed| - 1];
    }
  }

  lemma {:induction false} StripEndOfSuffix(front: Bytes, back: Bytes)
    ensures StripEnd(front + back) ==
            if StripEnd(back) == [] then StripEnd(front) else front + StripEnd(back)
    decreases |back|
  {
    hide StripEnd;
    if back == [] {
      assert front + back == front;
      StripEndNone();
    } else {
      var init, last := back[..|back| - 1], back[|back| - 1];
      assert back == init + [last];
      assert front + back == (front + init) + [last];
      StripEndSnoc(init, last);
      StripEndSnoc(front + init, last);
      if last == LF || last == CR {
        StripEndOfSuffix(front, init);
      }
    }
  }

  lemma StripEndNone()
    ensures StripEnd([]) == []
  {
  }

  lemma StripEndSnoc(b: Bytes, last: byte)
    ensures StripEnd(b + [last]) == if last == LF || last == CR then StripEnd(b) else b + [last]
  {
    assert (b + [last])[..|b|] == b;
  }

  lemma {:induction false} LastLfOfSuffix(front: Bytes, back: Bytes)
    requires LastLf(back) >= 0
    ensures LastLf(front + back) == |front| + LastLf(back)
    decreases |back|
  {
    if back[|back| - 1] != LF {
      var init := back[..|back| - 1];
      assert (front + back)[..|front + back| - 1] == front + init;
      LastLfOfSuffix(front, init);
    }
  }

  lemma LastLineInSuffix(front: Bytes, back: Bytes)
    requires LastLf(StripEnd(back)) >= 0
    ensures LastLine(front + back) == Some(StripEnd(back)[LastLf(StripEnd(back)) + 1..])
  {
    hide StripEnd, LastLf, LastLine;
    StripEndOfSuffix(front, back);
    var trimmed := StripEnd(back);
    var i := LastLf(trimmed);
    LastLfOfSuffix(front, trimmed);
    LastLineOf(front + back, front + trimmed);
    DropFront(front, trimmed, i + 1);
  }

  lemma LastLineOf(file: Bytes, trimmed: Bytes)
    requires trimmed == StripEnd(file) != []
    ensures LastLine(file) == Some(trimmed[LastLf(trimmed) + 1..])
  {
  }

  lemma DropFront(front: Bytes, back: Bytes, i: nat)
    requires i <= |back|
    ensures (front + back)[|front| + i..] == back[i..]
  {
  }

  lemma EmptyFile()
    ensures LastLine([]) == None
  {
  }

  lemma NoNewline(file: Bytes)
    requires LastLf(StripEnd(file)) == -1
    ensures LastLine(file) == if StripEnd(file) == [] then None else Some(StripEnd(file))
  {
  }

  lemma FoundInChunk(f: Bytes, from: nat)
    requires from <= |f| && LastLf(StripEnd(f[from..])) >= 0
    ensures LastLine(f) == Some(StripEnd(f[from..])[LastLf(StripEnd(f[from..])) + 1..])
  {
    hide StripEnd, LastLf, LastLine;
    assert f == f[..from] + f[from..];
    LastLineInSuffix(f[..from], f[from..]);
  }

  // One seek and read in front of what is already in hand.
  method ReadBack(f: Bytes, remaining: nat, chunk: Bytes, chunkSize: nat) returns (left: nat, longer: Bytes)
    requires chunkSize >= 1 && 0 < remaining <= |f| && chunk == f[remaining..]
    ensures left == remaining - Min(chunkSize, remaining) && longer == f[left..]
  {
    var readSize := Min(chunkSize, remaining);
    left := remaining - readSize;
    longer := f[left..left + readSize] + chunk;
  }

  // file is None when the path does not exist.
  method ReadLastLine(file: Option<Bytes>, chunkSize: nat) returns (line: Option<Bytes>)
    requires chunkSize >= 1
    ensures line == if file.None? then None else LastLine(file.value)
  {
    hide LastLf, StripEnd, LastLine;
    if file.None? {
      return None;
    }
    var f := file.value;
    var remaining: nat := |f|;
    if remaining == 0 {
      EmptyFile();
      return None;
    }
    var chunk: Bytes := [];
    while true
      invariant 0 < remaining <= |f| && chunk == f[remaining..]
      decreases remaining
    {
      remaining, chunk := ReadBack(f, remaining, chunk, chunkSize);
      var trimmed := StripEnd(chunk);
      var newlineAt := LastLf(trimmed);
      if newlineAt != -1 {
        FoundInChunk(f, remaining);
        return Some(trimmed[newlineAt + 1..]);
      }
      if remaining == 0 {
        assert f[0..] == f;
        NoNewline(f);
        return if trimmed == [] then None else Some(trimmed);
      }
    }
  }
}
