/** The resumable scan for unparseable stored lines, against a scan from byte 0. */
module IntegrityScan {
  import opened Binary
  import opened TailReader

  datatype Corruption = Corruption(lineNo: nat, byteOffset: nat)

  // Where the line starting at from ends: past its newline, or at the end of the file.
  function LineEnd(b: Bytes, from: nat): (to: nat)
    requires from < |b|
    ensures from < to <= |b|
    ensures b[to - 1] == LF || to == |b|
    ensures forall i :: from <= i < to - 1 ==> b[i] != LF
    decreases |b| - from
  {
    if b[from] == LF || from + 1 == |b| then from + 1 else LineEnd(b, from + 1)
  }

  function IsSpace(c: byte): bool {
    c == 32 || 9 <= c <= 13
  }

  // raw.strip()
  function Strip(raw: Bytes): Bytes {
    if raw != [] && IsSpace(raw[0]) then Strip(raw[1..])
    else if raw != [] && IsSpace(raw[|raw| - 1]) then Strip(raw[..|raw| - 1])
    else raw
  }

  // Blank, or JSON once stripped.
  predicate LineOk(parses: Bytes -> bool, raw: Bytes) {
    Strip(raw) == [] || parses(Strip(raw))
  }

  // The first bad line at or after an offset that lineNo lines precede.
  function FirstBad(parses: Bytes -> bool, b: Bytes, from: nat, lineNo: nat): Option<Corruption>
    decreases |b| - from
  {
    if from >= |b| then None
    else
      var to := LineEnd(b, from);
      if LineOk(parses, b[from..to]) then FirstBad(parses, b, to, lineNo + 1)
      else Some(Corruption(lineNo + 1, from))
  }

  // Space, tab, LF, VT, FF and CR.
  predicate Blank(b: Bytes) {
    forall i :: 0 <= i < |b| ==> b[i] in [32, 9, 10, 11, 12, 13]
  }

  lemma {:induction false} StripIs(raw: Bytes) returns (a: Bytes, z: Bytes)
    ensures raw == a + Strip(raw) + z && Blank(a) && Blank(z)
    ensures var s := Strip(raw);
            s != [] ==> !Blank([s[0]]) && !Blank([s[|s| - 1]])
    decreases |raw|
  {
    hide Blank, IsSpace, Strip;
    StripUnfold(raw);
    if raw != [] && IsSpace(raw[0]) {
      a, z := StripIs(raw[1..]);
      BlankCons(raw[0], a);
      StripFront(raw, a, z);
      a := [raw[0]] + a;
    } else if raw != [] && IsSpace(raw[|raw| - 1]) {
      a, z := StripIs(raw[..|raw| - 1]);
      BlankSnoc(z, raw[|raw| - 1]);
      StripBack(raw, a, z);
      z := z + [raw[|raw| - 1]];
    } else {
      a, z := [], [];
      NoBlanks(raw);
    }
  }

  lemma StripUnfold(raw: Bytes)
    ensures Strip(raw) == if raw != [] && IsSpace(raw[0]) then Strip(raw[1..])
                          else if raw != [] && IsSpace(raw[|raw| - 1]) then Strip(raw[..|raw| - 1])
                          else raw
  {
  }

  lemma StripFront(raw: Bytes, a: Bytes, z: Bytes)
    requires raw != [] && raw[1..] == a + Strip(raw[1..]) + z
    ensures raw == ([raw[0]] + a) + Strip(raw[1..]) + z
  {
    assert raw == [raw[0]] + raw[1..];
  }

  lemma StripBack(raw: Bytes, a: Bytes, z: Bytes)
    requires raw != [] && raw[..|raw| - 1] == a + Strip(raw[..|raw| - 1]) + z
    ensures raw == a + Strip(raw[..|raw| - 1]) + (z + [raw[|raw| - 1]])
  {
    assert raw == raw[..|raw| - 1] + [raw[|raw| - 1]];
  }

  lemma BlankCons(c: byte, b: Bytes)
    requires IsSpace(c) && Blank(b)
    ensures Blank([c] + b)
  {
  }

  lemma BlankSnoc(b: Bytes, c: byte)
    requires IsSpace(c) && Blank(b)
    ensures Blank(b + [c])
  {
  }

  lemma NoBlanks(raw: Bytes)
    requires raw != [] ==> !IsSpace(raw[0]) && !IsSpace(raw[|raw| - 1])
    ensures Blank([])
    ensures raw != [] ==> !Blank([raw[0]]) && !Blank([raw[|raw| - 1]])
  {
    assert raw != [] ==> [raw[0]][0] == raw[0] && [raw[|raw| - 1]][0] == raw[|raw| - 1];
  }

  // A line is bad exactly if something is left between the blanks and that does not parse.
  lemma LineOkMeans(parses: Bytes -> bool, raw: Bytes) returns (a: Bytes, mid: Bytes, z: Bytes)
    ensures raw == a + mid + z && Blank(a) && Blank(z) && (mid != [] ==> !Blank([mid[0]]) && !Blank([mid[|mid| - 1]]))
    ensures LineOk(parses, raw) <==> mid == [] || parses(mid)
  {
    hide Strip;
    a, z := StripIs(raw);
    mid := Strip(raw);
  }

  // The lines from an offset on, each with its newline.
  function LinesFrom(b: Bytes, from: nat): seq<Bytes>
    decreases |b| - from
  {
    if from >= |b| then [] else [b[from..LineEnd(b, from)]] + LinesFrom(b, LineEnd(b, from))
  }

  function Total(lines: seq<Bytes>): nat {
    if lines == [] then 0 else |lines[0]| + Total(lines[1..])
  }

  ghost predicate FirstBadAt(parses: Bytes -> bool, lines: seq<Bytes>, from: nat, lineNo: nat, found: Option<Corruption>) {
    match found
    case None => forall i :: 0 <= i < |lines| ==> LineOk(parses, lines[i])
    case Some(c) =>
      var k := c.lineNo - lineNo - 1;
      && 0 <= k < |lines| && !LineOk(parses, lines[k]) && c.byteOffset == from + Total(lines[..k])
      && forall i :: 0 <= i < k ==> LineOk(parses, lines[i])
  }

  // The report names the first bad line by its number, from 1, and by the bytes before it.
  lemma {:induction false} FirstBadMeans(parses: Bytes -> bool, b: Bytes, from: nat, lineNo: nat)
    requires from <= |b|
    ensures FirstBadAt(parses, LinesFrom(b, from), from, lineNo, FirstBad(parses, b, from, lineNo))
    decreases |b| - from
  {
    hide LineOk;
    if from < |b| {
      var to := LineEnd(b, from);
      FirstBadMeans(parses, b, to, lineNo + 1);
      var lines, found := LinesFrom(b, from), FirstBad(parses, b, from, lineNo);
      assert lines[1..] == LinesFrom(b, to);
      if LineOk(parses, lines[0]) && found.Some? {
        var k := found.value.lineNo - lineNo - 1;
        assert lines[..k][1..] == lines[1..][..k - 1];
        forall i | 0 <= i < k ensures LineOk(parses, lines[i]) {
          assert i > 0 ==> lines[i] == lines[1..][i - 1];
        }
      } else if LineOk(parses, lines[0]) {
        forall i | 0 <= i < |lines| ensures LineOk(parses, lines[i]) {
          assert i > 0 ==> lines[i] == lines[1..][i - 1];
        }
      }
    }
  }

  function Joined(lines: seq<Bytes>): Bytes {
    if lines == [] then [] else lines[0] + Joined(lines[1..])
  }

  // Not empty, with a newline nowhere but at its end, where only the last line may lack it.
  predicate IsLine(line: Bytes, last: bool) {
    line != [] && (!last ==> line[|line| - 1] == 10) && forall j :: 0 <= j < |line| - 1 ==> line[j] != 10
  }

  predicate AreLines(lines: seq<Bytes>) {
    forall i :: 0 <= i < |lines| ==> IsLine(lines[i], i == |lines| - 1)
  }

  lemma FirstIsLine(b: Bytes, from: nat)
    requires from < |b|
    ensures IsLine(b[from..LineEnd(b, from)], LineEnd(b, from) == |b|)
  {
  }

  lemma MoreLines(b: Bytes, from: nat)
    ensures LinesFrom(b, from) == [] <==> from >= |b|
  {
  }

  // The lines make up the file.
  lemma {:induction false} LinesAre(b: Bytes, from: nat)
    requires from <= |b|
    ensures Joined(LinesFrom(b, from)) == b[from..] && AreLines(LinesFrom(b, from))
    decreases |b| - from
  {
    hide IsLine, LineEnd;
    if from < |b| {
      var to := LineEnd(b, from);
      LinesAre(b, to);
      FirstIsLine(b, from);
      MoreLines(b, to);
      var lines, rest := LinesFrom(b, from), LinesFrom(b, to);
      assert lines == [b[from..to]] + rest && lines[1..] == rest;
      assert b[from..] == b[from..to] + b[to..];
      forall i | 0 <= i < |lines| ensures IsLine(lines[i], i == |lines| - 1) {
        assert i > 0 ==> lines[i] == rest[i - 1] && IsLine(rest[i - 1], i - 1 == |rest| - 1);
      }
    }
  }

  // From one offset to the other there are exactly this many good, newline-terminated lines.
  predicate Cleared(parses: Bytes -> bool, b: Bytes, from: nat, to: nat, lines: nat)
    decreases (to - from)
  {
    if from >= to then from == to && lines == 0
    else
      && to <= |b| && lines > 0
      && var end := LineEnd(b, from);
         end <= to && b[end - 1] == LF && LineOk(parses, b[from..end]) && Cleared(parses, b, end, to, lines - 1)
  }

  lemma {:induction false} ClearedSkips(parses: Bytes -> bool, b: Bytes, from: nat, to: nat, lines: nat, lineNo: nat)
    requires Cleared(parses, b, from, to, lines)
    ensures FirstBad(parses, b, from, lineNo) == FirstBad(parses, b, to, lineNo + lines)
    decreases (to - from)
  {
    if from < to {
      ClearedSkips(parses, b, LineEnd(b, from), to, lines - 1, lineNo + 1);
    }
  }

  lemma {:induction false} LineEndGrows(b: Bytes, more: Bytes, from: nat)
    requires b <= more && from < |b| && b[LineEnd(b, from) - 1] == LF
    ensures LineEnd(more, from) == LineEnd(b, from)
    decreases |b| - from
  {
    if b[from] != LF && from + 1 < |b| {
      LineEndGrows(b, more, from + 1);
    }
  }

  lemma {:induction false} ClearedGrows(parses: Bytes -> bool, b: Bytes, more: Bytes, from: nat, to: nat, lines: nat)
    requires b <= more && Cleared(parses, b, from, to, lines)
    ensures Cleared(parses, more, from, to, lines)
    decreases (to - from)
  {
    if from < to {
      LineEndGrows(b, more, from);
      assert b[from..LineEnd(b, from)] == more[from..LineEnd(b, from)];
      ClearedGrows(parses, b, more, LineEnd(b, from), to, lines - 1);
    }
  }

  lemma {:induction false} ClearedSnoc(parses: Bytes -> bool, b: Bytes, from: nat, to: nat, lines: nat)
    requires Cleared(parses, b, from, to, lines) && to < |b|
    requires var end := LineEnd(b, to);
             b[end - 1] == LF && LineOk(parses, b[to..end])
    ensures Cleared(parses, b, from, LineEnd(b, to), lines + 1)
    decreases (to - from)
  {
    if from < to {
      ClearedSnoc(parses, b, LineEnd(b, from), to, lines - 1);
    }
  }

  // What the scanner remembers between scans.
  datatype Resume = Resume(offset: nat, lines: nat)

  predicate Trusted(parses: Bytes -> bool, b: Bytes, r: Resume) {
    r.offset <= |b| && Cleared(parses, b, 0, r.offset, r.lines)
  }

  // A file shorter than what is remembered is scanned from its start.
  function StartAt(b: Bytes, r: Resume): Resume {
    if |b| < r.offset then Resume(0, 0) else r
  }

  // What is remembered after a scan from at: past the last good newline-terminated line before the first
  // bad or unterminated one, or what was kept if there is none.
  function Remembered(parses: Bytes -> bool, b: Bytes, at: Resume, kept: Resume): Resume
    decreases |b| - at.offset
  {
    if at.offset >= |b| then kept
    else
      var to := LineEnd(b, at.offset);
      if LineOk(parses, b[at.offset..to]) && b[to - 1] == LF then
        var next := Resume(to, at.lines + 1);
        Remembered(parses, b, next, next)
      else kept
  }

  lemma {:induction false} RememberedIsTrusted(parses: Bytes -> bool, b: Bytes, at: Resume, kept: Resume)
    requires Trusted(parses, b, at)
    ensures var r := Remembered(parses, b, at, kept);
            r == kept || Trusted(parses, b, r)
    decreases |b| - at.offset
  {
    if at.offset < |b| {
      var to := LineEnd(b, at.offset);
      if LineOk(parses, b[at.offset..to]) && b[to - 1] == LF {
        ClearedSnoc(parses, b, 0, at.offset, at.lines);
        var next := Resume(to, at.lines + 1);
        RememberedIsTrusted(parses, b, next, next);
      }
    }
  }

  // A good line that ends in a newline.
  predicate ClearsLine(parses: Bytes -> bool, b: Bytes, from: nat) {
    from < |b| && b[LineEnd(b, from) - 1] == 10 && LineOk(parses, b[from..LineEnd(b, from)])
  }

  // What is remembered goes as far as it can: no line after it could be cleared, and if nothing new is
  // remembered the first line scanned could not.
  lemma {:induction false} RememberedIsLast(parses: Bytes -> bool, b: Bytes, at: Resume, kept: Resume)
    requires at.offset <= |b|
    ensures var r := Remembered(parses, b, at, kept);
            if ClearsLine(parses, b, at.offset) then at.offset < r.offset <= |b| && !ClearsLine(parses, b, r.offset)
            else r == kept
    decreases |b| - at.offset
  {
    hide LineOk;
    if ClearsLine(parses, b, at.offset) {
      var next := Resume(LineEnd(b, at.offset), at.lines + 1);
      RememberedIsLast(parses, b, next, next);
    }
  }

  class Scanner {
    var scannedOffset: nat
    var scannedLines: nat

    ghost function State(): Resume
      reads this
    {
      Resume(scannedOffset, scannedLines)
    }

    constructor ()
      ensures State() == Resume(0, 0)
    {
      scannedOffset, scannedLines := 0, 0;
    }

    method Scan(parses: Bytes -> bool, file: Bytes) returns (bad: Option<Corruption>)
      modifies this
      ensures var at := StartAt(file, old(State()));
              && bad == FirstBad(parses, file, at.offset, at.lines)
              && State() == Remembered(parses, file, at, old(State()))
      ensures bad == if |file| < old(scannedOffset) then FirstBad(parses, file, 0, 0)
                     else FirstBad(parses, file, old(scannedOffset), old(scannedLines))
    {
      hide FirstBad, Remembered, Strip;
      var byteOffset, lineNo := scannedOffset, scannedLines;
      if |file| < byteOffset {
        byteOffset, lineNo := 0, 0;
      }
      ghost var at := Resume(byteOffset, lineNo);
      while byteOffset < |file|
        invariant byteOffset <= |file|
        invariant FirstBad(parses, file, at.offset, at.lines) == FirstBad(parses, file, byteOffset, lineNo)
        invariant Remembered(parses, file, at, old(State())) == Remembered(parses, file, Resume(byteOffset, lineNo), State())
        decreases |file| - byteOffset
      {
        var to := LineEnd(file, byteOffset);
        var raw := file[byteOffset..to];
        OneLineOn(parses, file, Resume(byteOffset, lineNo), State());
        lineNo := lineNo + 1;
        var stripped := Strip(raw);
        if stripped != [] {
          if !parses(stripped) {
            return Some(Corruption(lineNo, byteOffset));
          }
        }
        if raw[|raw| - 1] == LF {
          scannedOffset, scannedLines := to, lineNo;
        }
        byteOffset := to;
      }
      NoMoreLines(parses, file, Resume(byteOffset, lineNo), State());
      return None;
    }
  }

  // What one line does to the report and to what is remembered.
  lemma OneLineOn(parses: Bytes -> bool, b: Bytes, at: Resume, kept: Resume)
    requires at.offset < |b|
    ensures var to := LineEnd(b, at.offset);
            var next := Resume(to, at.lines + 1);
            if !LineOk(parses, b[at.offset..to]) then
              && FirstBad(parses, b, at.offset, at.lines) == Some(Corruption(at.lines + 1, at.offset))
              && Remembered(parses, b, at, kept) == kept
            else
              && FirstBad(parses, b, at.offset, at.lines) == FirstBad(parses, b, to, at.lines + 1)
              && Remembered(parses, b, at, kept) == Remembered(parses, b, next, if b[to - 1] == LF then next else kept)
  {
    hide Strip, LineOk;
  }

  lemma NoMoreLines(parses: Bytes -> bool, b: Bytes, at: Resume, kept: Resume)
    requires at.offset >= |b|
    ensures FirstBad(parses, b, at.offset, at.lines).None? && Remembered(parses, b, at, kept) == kept
  {
  }

  // If what is remembered is true of the file, or the file has become shorter than it, the scan finds
  // what a scan from byte 0 finds; in the first case, or once it clears a line, what it remembers
  // afterwards is true of the file.
  lemma ResumedScanAgrees(parses: Bytes -> bool, b: Bytes, r: Resume)
    requires Trusted(parses, b, r) || |b| < r.offset
    ensures var at := StartAt(b, r);
            && FirstBad(parses, b, at.offset, at.lines) == FirstBad(parses, b, 0, 0)
            && (Trusted(parses, b, Remembered(parses, b, at, r)) <==>
                  Trusted(parses, b, r) || Remembered(parses, b, at, r) != r)
  {
    var at := StartAt(b, r);
    ClearedSkips(parses, b, 0, at.offset, at.lines, 0);
    RememberedIsTrusted(parses, b, at, r);
  }

  // While the file only grows, every resumed scan agrees with a scan from byte 0, also when an
  // unterminated tail is completed later.
  method ScanGrowing(parses: Bytes -> bool, files: seq<Bytes>) returns (found: seq<Option<Corruption>>)
    requires forall i :: 0 < i < |files| ==> files[i - 1] <= files[i]
    ensures |found| == |files|
    ensures forall i :: 0 <= i < |files| ==> found[i] == FirstBad(parses, files[i], 0, 0)
  {
    hide Cleared, FirstBad, Remembered;
    var scanner := new Scanner();
    found := [];
    for i := 0 to |files|
      invariant |found| == i && fresh(scanner)
      invariant i == 0 ==> scanner.State() == Resume(0, 0)
      invariant i > 0 ==> Trusted(parses, files[i - 1], scanner.State())
      invariant forall k :: 0 <= k < i ==> found[k] == FirstBad(parses, files[k], 0, 0)
    {
      if i > 0 {
        TrustedGrows(parses, files[i - 1], files[i], scanner.State());
      } else {
        StartIsTrusted(parses, files[i]);
      }
      ResumedScanAgrees(parses, files[i], scanner.State());
      var bad := scanner.Scan(parses, files[i]);
      found := found + [bad];
    }
  }

  // ----- Files that shrink -----

  // A good, newline-terminated first line.
  predicate BeginsGood(parses: Bytes -> bool, b: Bytes) {
    b != [] && b[LineEnd(b, 0) - 1] == LF && LineOk(parses, b[..LineEnd(b, 0)])
  }

  predicate Agrees(parses: Bytes -> bool, b: Bytes, r: Resume) {
    var at := StartAt(b, r);
    FirstBad(parses, b, at.offset, at.lines) == FirstBad(parses, b, 0, 0)
  }

  // The rest of a line that makes the whole of it unparseable.
  predicate Spoils(parses: Bytes -> bool, b: Bytes, rest: Bytes) {
    LF !in rest && !LineOk(parses, b + rest + [LF])
  }

  // Whatever a line begins with, it can still become unparseable, as a control character makes any JSON.
  ghost predicate Spoilable(parses: Bytes -> bool) {
    forall b: Bytes :: LF !in b ==> exists rest :: Spoils(parses, b, rest)
  }

  lemma {:induction false} RememberedWithin(parses: Bytes -> bool, b: Bytes, at: Resume, kept: Resume)
    requires at.offset <= |b|
    ensures var r := Remembered(parses, b, at, kept);
            r == kept || r.offset <= |b|
    decreases |b| - at.offset
  {
    if at.offset < |b| {
      var next := Resume(LineEnd(b, at.offset), at.lines + 1);
      RememberedWithin(parses, b, next, next);
    }
  }

  // After a shrink the old offset is given up exactly when the short file begins with a good line.
  lemma GivesUpOldOffset(parses: Bytes -> bool, b: Bytes, r: Resume)
    requires |b| < r.offset
    ensures Remembered(parses, b, Resume(0, 0), r) != r <==> BeginsGood(parses, b)
  {
    if BeginsGood(parses, b) {
      var next := Resume(LineEnd(b, 0), 1);
      assert b[0..LineEnd(b, 0)] == b[..LineEnd(b, 0)];
      RememberedWithin(parses, b, next, next);
    } else if b != [] {
      assert b[0..LineEnd(b, 0)] == b[..LineEnd(b, 0)];
    }
  }

  lemma {:induction false} ReportedFrom(parses: Bytes -> bool, b: Bytes, from: nat, lineNo: nat)
    ensures FirstBad(parses, b, from, lineNo).Some? ==> FirstBad(parses, b, from, lineNo).value.byteOffset >= from
    decreases |b| - from
  {
    if from < |b| {
      ReportedFrom(parses, b, LineEnd(b, from), lineNo + 1);
    }
  }

  // A first line that a resumed scan does not look at.
  lemma MissesFirstLine(parses: Bytes -> bool, b: Bytes, r: Resume)
    requires 0 < r.offset <= |b| && !LineOk(parses, b[..LineEnd(b, 0)])
    ensures !Agrees(parses, b, r)
  {
    assert b[0..LineEnd(b, 0)] == b[..LineEnd(b, 0)];
    ReportedFrom(parses, b, r.offset, r.lines);
  }

  lemma FirstLineStays(line: Bytes, pad: Bytes)
    requires line != [] && line[LineEnd(line, 0) - 1] == LF
    ensures LineEnd(line + pad, 0) == LineEnd(line, 0)
    ensures (line + pad)[..LineEnd(line, 0)] == line[..LineEnd(line, 0)]
  {
    LineEndGrows(line, line + pad, 0);
  }

  lemma HasLine(b: Bytes)
    requires LF in b
    ensures b[LineEnd(b, 0) - 1] == LF
  {
  }

  lemma OnlyLine(b: Bytes)
    requires LF !in b
    ensures LineEnd(b + [LF], 0) == |b| + 1
  {
    var line := b + [LF];
    assert forall i :: 0 <= i < |b| ==> line[i] == b[i] && b[i] in b;
  }

  // What to append to a short file without a good first line so that the old offset hides a bad one.
  lemma HidingGrowth(parses: Bytes -> bool, b: Bytes, r: Resume) returns (more: Bytes)
    requires |b| < r.offset && !BeginsGood(parses, b) && Spoilable(parses)
    ensures b <= more && !Agrees(parses, more, r)
  {
    hide LineEnd, LineOk, Agrees;
    var line, pad := b, seq(r.offset, _ => LF);
    if LF in b {
      HasLine(b);
    } else {
      var rest :| Spoils(parses, b, rest);
      line := b + rest + [LF];
      OnlyLine(b + rest);
      assert line[..|line|] == line;
    }
    FirstLineStays(line, pad);
    more := line + pad;
    MissesFirstLine(parses, more, r);
  }

  // The exact condition after a shrink: every later growth is scanned as from byte 0 exactly when the
  // short file begins with a good, terminated line.
  lemma ShrinkExact(parses: Bytes -> bool, b: Bytes, r: Resume)
    requires |b| < r.offset
    ensures var kept := Remembered(parses, b, Resume(0, 0), r);
            && (BeginsGood(parses, b) ==> forall more :: b <= more ==> Agrees(parses, more, kept))
            && (Spoilable(parses) && (forall more :: b <= more ==> Agrees(parses, more, kept)) ==> BeginsGood(parses, b))
  {
    hide Remembered, Agrees, Spoilable, BeginsGood;
    var kept := Remembered(parses, b, Resume(0, 0), r);
    GivesUpOldOffset(parses, b, r);
    if BeginsGood(parses, b) {
      RememberedIsTrusted(parses, b, Resume(0, 0), r);
      forall more | b <= more ensures Agrees(parses, more, kept) {
        TrustedGrows(parses, b, more, kept);
      }
    } else if Spoilable(parses) {
      var more := HidingGrowth(parses, b, r);
    }
  }

  lemma TrustedGrows(parses: Bytes -> bool, b: Bytes, more: Bytes, r: Resume)
    requires Trusted(parses, b, r) && b <= more
    ensures Trusted(parses, more, r) && Agrees(parses, more, r)
  {
    ClearedGrows(parses, b, more, 0, r.offset, r.lines);
    ResumedScanAgrees(parses, more, r);
  }

  lemma {:induction false} ClearedShrinks(parses: Bytes -> bool, b: Bytes, less: Bytes, from: nat, to: nat, lines: nat)
    requires less <= b && to <= |less| && Cleared(parses, b, from, to, lines)
    ensures Cleared(parses, less, from, to, lines)
    decreases (to - from)
  {
    if from < to {
      var end := LineEnd(b, from);
      assert LineEnd(less, from) == end;
      assert b[from..end] == less[from..end];
      ClearedShrinks(parses, b, less, end, to, lines - 1);
    }
  }

  // What is remembered after scanning these files one after the other.
  function StateAfter(parses: Bytes -> bool, files: seq<Bytes>): Resume {
    if files == [] then Resume(0, 0)
    else
      var before, last := StateAfter(parses, files[..|files| - 1]), files[|files| - 1];
      Remembered(parses, last, StartAt(last, before), before)
  }

  predicate Shrunk(parses: Bytes -> bool, files: seq<Bytes>, i: nat)
    requires i < |files|
  {
    |files[i]| < StateAfter(parses, files[..i]).offset
  }

  // The file grew, was cut, or was replaced by one shorter than what is remembered of it.
  predicate Changed(parses: Bytes -> bool, files: seq<Bytes>, i: nat)
    requires 0 < i < |files|
  {
    files[i - 1] <= files[i] || files[i] <= files[i - 1] || Shrunk(parses, files, i)
  }

  // The last file shorter than what was remembered, if there was one, began with a good line.
  predicate Sharp(parses: Bytes -> bool, files: seq<Bytes>) {
    if files == [] then true
    else
      var n := |files| - 1;
      if |files[n]| < StateAfter(parses, files[..n]).offset then BeginsGood(parses, files[n]) else Sharp(parses, files[..n])
  }

  lemma {:induction false} SharpIsTrusted(parses: Bytes -> bool, files: seq<Bytes>)
    requires files != [] && Sharp(parses, files)
    requires forall i :: 0 < i < |files| ==> Changed(parses, files, i)
    ensures Trusted(parses, files[|files| - 1], StateAfter(parses, files))
    decreases |files|
  {
    hide Remembered, Trusted, BeginsGood, FirstBad;
    var n := |files| - 1;
    var init, last := files[..n], files[n];
    var before := StateAfter(parses, init);
    if |last| < before.offset {
      GivesUpOldOffset(parses, last, before);
      StartIsTrusted(parses, last);
      RememberedIsTrusted(parses, last, Resume(0, 0), before);
    } else {
      if n == 0 {
        StartIsTrusted(parses, last);
      } else {
        forall i | 0 < i < |init| ensures Changed(parses, init, i) {
          assert Changed(parses, files, i) && init[..i] == files[..i];
        }
        SharpIsTrusted(parses, init);
        assert Changed(parses, files, n);
        TrustedChanged(parses, init[n - 1], last, before);
      }
      ResumedScanAgrees(parses, last, before);
    }
  }

  lemma StartIsTrusted(parses: Bytes -> bool, b: Bytes)
    ensures Trusted(parses, b, Resume(0, 0))
  {
  }

  lemma TrustedChanged(parses: Bytes -> bool, b: Bytes, c: Bytes, r: Resume)
    requires Trusted(parses, b, r) && r.offset <= |c| && (b <= c || c <= b)
    ensures Trusted(parses, c, r)
  {
    if b <= c {
      ClearedGrows(parses, b, c, 0, r.offset, r.lines);
    } else {
      ClearedShrinks(parses, b, c, 0, r.offset, r.lines);
    }
  }

  // Over every run of growing, cut and replaced files: a scan agrees with one from byte 0 whenever the
  // file has just become shorter than what is remembered, or the last one to do so began with a good line.
  method ScanRun(parses: Bytes -> bool, files: seq<Bytes>) returns (found: seq<Option<Corruption>>)
    requires forall i :: 0 < i < |files| ==> Changed(parses, files, i)
    ensures |found| == |files|
    ensures forall i :: 0 <= i < |files| && (Shrunk(parses, files, i) || Sharp(parses, files[..i])) ==>
              found[i] == FirstBad(parses, files[i], 0, 0)
  {
    hide Remembered, FirstBad, Trusted, Sharp;
    var scanner := new Scanner();
    found := [];
    for i := 0 to |files|
      invariant |found| == i && fresh(scanner) && scanner.State() == StateAfter(parses, files[..i])
      invariant forall k :: 0 <= k < i && (Shrunk(parses, files, k) || Sharp(parses, files[..k])) ==>
                  found[k] == FirstBad(parses, files[k], 0, 0)
    {
      if Shrunk(parses, files, i) || Sharp(parses, files[..i]) {
        RunAgrees(parses, files, i);
      }
      assert files[..i + 1][..i] == files[..i];
      var bad := scanner.Scan(parses, files[i]);
      found := found + [bad];
    }
  }

  lemma RunAgrees(parses: Bytes -> bool, files: seq<Bytes>, i: nat)
    requires i < |files| && (Shrunk(parses, files, i) || Sharp(parses, files[..i]))
    requires forall k :: 0 < k < |files| ==> Changed(parses, files, k)
    ensures Agrees(parses, files[i], StateAfter(parses, files[..i]))
  {
    hide Remembered, FirstBad, Trusted, Sharp;
    var init, r := files[..i], StateAfter(parses, files[..i]);
    if !Shrunk(parses, files, i) {
      if i == 0 {
        StartIsTrusted(parses, files[i]);
      } else {
        forall k | 0 < k < |init| ensures Changed(parses, init, k) {
          assert Changed(parses, files, k) && init[..k] == files[..k];
        }
        SharpIsTrusted(parses, init);
        assert Changed(parses, files, i);
        TrustedChanged(parses, files[i - 1], files[i], r);
      }
    }
    ResumedScanAgrees(parses, files[i], r);
  }

  // An instance: an empty file clears nothing, so the old offset stays; once the file has grown past it
  // again, the resumed scan skips a bad first line.
  method ShrinkThenGrow(parses: Bytes -> bool) returns (found: Option<Corruption>)
    requires parses([49]) && parses([50]) && !parses([120])
    ensures found == None
    ensures FirstBad(parses, [120, LF, 49, LF, 50, LF], 0, 0) == Some(Corruption(1, 0))
  {
    var before: Bytes, after: Bytes := [49, LF, 50, LF], [120, LF, 49, LF, 50, LF];
    var scanner := new Scanner();
    OneLine(parses, before, 0, 49);
    OneLine(parses, before, 2, 50);
    OneLine(parses, after, 0, 120);
    OneLine(parses, after, 4, 50);
    found := scanner.Scan(parses, before);
    assert scanner.State() == Resume(4, 2) by {
      assert Remembered(parses, before, Resume(2, 1), Resume(2, 1)) == Resume(4, 2);
    }
    found := scanner.Scan(parses, []);
    found := scanner.Scan(parses, after);
  }

  lemma OneLine(parses: Bytes -> bool, b: Bytes, at: nat, c: byte)
    requires at + 1 < |b| && b[at] == c && b[at + 1] == LF && !IsSpace(c)
    ensures LineEnd(b, at) == at + 2
    ensures LineOk(parses, b[at..at + 2]) <==> parses([c])
  {
    var raw := b[at..at + 2];
    assert raw == [c, LF];
    assert raw[..1] == [c];
    assert Strip([c]) == [c];
    assert Strip(raw) == Strip(raw[..1]);
  }
}
