/** The server's receipt chain, its log, and the checker that replays it. */
module Receipts {
  import opened Binary
  import opened Frames

  predicate IsHex64(t: Text) {
    |t| == 64 && forall i :: 0 <= i < 64 ==> 48 <= t[i] <= 57 || 97 <= t[i] <= 102
  }

  type Hex64 = t: Text | IsHex64(t) witness seq(64, _ => 48)

  // hexdigest of SHA-256; nothing is assumed of it.
  type HexHash = Bytes -> Hex64

  // The digits are those of lower-case hexadecimal.
  lemma HexDigits(t: Text)
    ensures IsHex64(t) <==>
              && |t| == 64
              && forall i :: 0 <= i < 64 ==> '0' as int <= t[i] <= '9' as int || 'a' as int <= t[i] <= 'f' as int
  {
  }

  // Sixty-four zeros.
  function Genesis(): (g: Hex64)
    ensures |g| == 64 && forall i :: 0 <= i < 64 ==> g[i] == '0' as int
  {
    seq(64, _ => 48)
  }

  // struct.pack accepts the length of str(n).
  predicate Writable(n: nat) {
    |Decimal(n)| + 1 < U64_LIMIT
  }

  predicate AllWritable(count: nat) {
    forall i :: 0 <= i < count ==> Writable(i)
  }

  function LinkFields(receiptSeq: nat, prev: Hex64, entryHash: Hex64): seq<Text> {
    [Decimal(receiptSeq), prev, entryHash]
  }

  function LinkFrame(receiptSeq: nat, prev: Hex64, entryHash: Hex64): Bytes
    requires Writable(receiptSeq)
  {
    Frame(ReceiptKind, LinkFields(receiptSeq, prev, entryHash))
  }

  function ReceiptHead(h: HexHash, receiptSeq: nat, prev: Hex64, entryHash: Hex64): Hex64
    requires Writable(receiptSeq)
  {
    h(LinkFrame(receiptSeq, prev, entryHash))
  }

  // The head after acknowledging these entry hashes, replayed from genesis.
  function HeadAfter(h: HexHash, hashes: seq<Hex64>): Hex64
    requires AllWritable(|hashes|)
  {
    if hashes == [] then Genesis()
    else
      var n := |hashes| - 1;
      ReceiptHead(h, n, HeadAfter(h, hashes[..n]), hashes[n])
  }

  lemma HeadAfterSnoc(h: HexHash, hashes: seq<Hex64>, e: Hex64)
    requires AllWritable(|hashes| + 1)
    ensures HeadAfter(h, hashes + [e]) == ReceiptHead(h, |hashes|, HeadAfter(h, hashes), e)
  {
    assert (hashes + [e])[..|hashes|] == hashes;
  }

  // ----- Binding -----

  lemma LinkFrameInjective(s: nat, p: Hex64, e: Hex64, s': nat, p': Hex64, e': Hex64)
    requires Writable(s) && Writable(s')
    ensures LinkFrame(s, p, e) == LinkFrame(s', p', e') <==> s == s' && p == p' && e == e'
  {
    var f, f' := LinkFields(s, p, e), LinkFields(s', p', e');
    FrameInjective(ReceiptKind, f, ReceiptKind, f');
    DecimalRoundTrip(s);
    DecimalRoundTrip(s');
    if f == f' {
      assert f[0] == f'[0] && f[1] == f'[1] && f[2] == f'[2];
    }
  }

  // Going back along both chains, the first pair of links whose frames differ.
  function LinkCollision(h: HexHash, a: seq<Hex64>, b: seq<Hex64>): Option<(Bytes, Bytes)>
    requires AllWritable(|a|) && AllWritable(|b|)
    decreases |a|
  {
    if a == [] || b == [] then None
    else
      var i, j := |a| - 1, |b| - 1;
      var x := LinkFrame(i, HeadAfter(h, a[..i]), a[i]);
      var y := LinkFrame(j, HeadAfter(h, b[..j]), b[j]);
      if x != y then Some((x, y)) else LinkCollision(h, a[..i], b[..j])
  }

  // One receipt head fixes the position and everything acknowledged up to it, or two different frames
  // with one hash are in hand. Only the chain without receipts can share its head, sixty-four zeros.
  lemma {:induction false} ReceiptBinds(h: HexHash, a: seq<Hex64>, b: seq<Hex64>)
    requires AllWritable(|a|) && AllWritable(|b|)
    requires HeadAfter(h, a) == HeadAfter(h, b)
    ensures match LinkCollision(h, a, b)
            case Some((x, y)) => Collides(h, x, y)
            case None => if a == [] <==> b == [] then a == b else HeadAfter(h, a) == Genesis()
    decreases |a|
  {
    hide LinkFrame;
    if a != [] && b != [] {
      var i, j := |a| - 1, |b| - 1;
      var p, q := HeadAfter(h, a[..i]), HeadAfter(h, b[..j]);
      LinkFrameInjective(i, p, a[i], j, q, b[j]);
      if LinkFrame(i, p, a[i]) == LinkFrame(j, q, b[j]) {
        ReceiptBinds(h, a[..i], b[..j]);
        assert a == a[..i] + [a[i]] && b == b[..j] + [b[j]];
      }
    }
  }

  // ----- The chain object -----

  class ReceiptChain {
    var seqNo: int
    var head: Hex64

    ghost predicate Holds(h: HexHash, hashes: seq<Hex64>)
      reads this
    {
      AllWritable(|hashes|) && seqNo == |hashes| - 1 && head == HeadAfter(h, hashes)
    }

    constructor (ghost h: HexHash)
      ensures Holds(h, [])
    {
      seqNo, head := -1, Genesis();
    }

    // Null where the source raises ValueError.
    static method Resume(receiptSeq: int, head: Text) returns (chain: ReceiptChain?)
      ensures chain == null <==> receiptSeq < 0 || !IsHex64(head)
      ensures chain != null ==> fresh(chain) && chain.seqNo == receiptSeq && chain.head == head
    {
      chain := null;
      if receiptSeq >= 0 && IsHex64(head) {
        var c := new ReceiptChain((_) => Genesis());
        c.seqNo, c.head := receiptSeq, head;
        chain := c;
      }
    }

    // None where the source raises ValueError, and then nothing changed.
    method Acknowledge(h: HexHash, entryHash: Text, ghost hashes: seq<Hex64>) returns (link: Option<(int, Hex64)>)
      requires seqNo >= -1 && Writable(seqNo + 1)
      modifies this
      ensures !IsHex64(entryHash) ==> link.None? && seqNo == old(seqNo) && head == old(head)
      ensures IsHex64(entryHash) ==>
                && seqNo == old(seqNo) + 1
                && head == ReceiptHead(h, seqNo, old(head), entryHash)
                && link == Some((seqNo, head))
      ensures IsHex64(entryHash) && old(Holds(h, hashes)) ==> Holds(h, hashes + [entryHash])
    {
      if !IsHex64(entryHash) {
        return None;
      }
      var next := seqNo + 1;
      head := ReceiptHead(h, next, head, entryHash);
      seqNo := next;
      link := Some((next, head));
      if old(Holds(h, hashes)) {
        HeadAfterSnoc(h, hashes, entryHash);
      }
    }

    // None is "no receipts yet".
    method Head() returns (r: Option<(int, Hex64)>)
      ensures r == if seqNo < 0 then None else Some((seqNo, head))
    {
      r := if seqNo < 0 then None else Some((seqNo, head));
    }
  }

  // ----- The log -----

  // A record as parsed: a field is None when it is missing or does not convert.
  datatype Fields = Fields(seqNo: Option<int>, entryHash: Option<Text>, receiptSeq: Option<int>, receiptHead: Option<Text>)

  // NotJson does not parse; NoVersion parses to something without "v".
  datatype LogLine = BlankLine | NotJson | NoVersion | Versioned(version: int, fields: Fields)

  const RECEIPT_VERSION := 1

  datatype Verdict = Ok | Broken | Unverifiable

  datatype Reason =
    | NoReason
    | NotRecorded
    | MalformedReceiptRecord
    | UnreadableRecordVersion
    | ReceiptSeqGap
    | ReceiptHeadMismatch
    | ReceiptBeyondHead
    | ReceiptMismatch

  datatype Report = Report(verdict: Verdict, checked: Option<nat>, reason: Reason, broken: Option<int>)

  function NonBlank(lines: seq<LogLine>): (r: seq<LogLine>)
    ensures |r| <= |lines|
    ensures forall i :: 0 <= i < |r| ==> r[i] != BlankLine
  {
    if lines == [] then []
    else
      var init, last := NonBlank(lines[..|lines| - 1]), lines[|lines| - 1];
      if last == BlankLine then init else init + [last]
  }

  // Readable as an acknowledgment of some entry hash.
  predicate Readable(line: LogLine) {
    && line.Versioned? && line.version == RECEIPT_VERSION
    && line.fields.receiptSeq.Some? && line.fields.receiptHead.Some?
    && line.fields.entryHash.Some? && IsHex64(line.fields.entryHash.value)
  }

  predicate AllReadable(lines: seq<LogLine>) {
    forall i :: 0 <= i < |lines| ==> Readable(lines[i])
  }

  function HashOf(line: LogLine): Hex64
    requires Readable(line)
  {
    line.fields.entryHash.value
  }

  function Acknowledged(lines: seq<LogLine>): (r: seq<Hex64>)
    requires AllReadable(lines)
    ensures |r| == |lines| && forall i :: 0 <= i < |lines| ==> r[i] == HashOf(lines[i])
  {
    seq(|lines|, i requires 0 <= i < |lines| => HashOf(lines[i]))
  }

  // Line i carries receipt_seq i and the head replayed from genesis up to it.
  ghost predicate Honest(h: HexHash, lines: seq<LogLine>, i: nat)
    requires AllReadable(lines) && AllWritable(|lines|) && i < |lines|
  {
    && lines[i].fields.receiptSeq.value == i
    && lines[i].fields.receiptHead.value == HeadAfter(h, Acknowledged(lines)[..i + 1])
  }

  ghost predicate HonestLog(h: HexHash, lines: seq<LogLine>)
    requires AllWritable(|lines|)
  {
    AllReadable(lines) && forall i :: 0 <= i < |lines| ==> Honest(h, lines, i)
  }

  lemma HonestExtended(h: HexHash, lines: seq<LogLine>, more: seq<LogLine>, i: nat)
    requires AllReadable(lines + more) && AllReadable(lines) && AllWritable(|lines + more|) && i < |lines|
    ensures Honest(h, lines + more, i) <==> Honest(h, lines, i)
  {
    assert Acknowledged(lines + more)[..i + 1] == Acknowledged(lines)[..i + 1];
  }

  lemma HonestLogSnoc(h: HexHash, lines: seq<LogLine>, line: LogLine)
    requires AllWritable(|lines| + 1) && HonestLog(h, lines)
    ensures HonestLog(h, lines + [line]) <==>
            && Readable(line)
            && line.fields.receiptSeq.value == |lines|
            && line.fields.receiptHead.value == ReceiptHead(h, |lines|, HeadAfter(h, Acknowledged(lines)), HashOf(line))
  {
    hide Readable, ReceiptHead, HeadAfter;
    var all := lines + [line];
    assert all[|lines|] == line;
    if Readable(line) {
      assert Acknowledged(all) == Acknowledged(lines) + [HashOf(line)];
      assert Acknowledged(all)[..|all|] == Acknowledged(all);
      HeadAfterSnoc(h, Acknowledged(lines), HashOf(line));
      forall i | 0 <= i < |lines| ensures Honest(h, all, i) {
        assert Honest(h, lines, i);
        HonestExtended(h, lines, [line], i);
      }
      assert HonestLog(h, all) <==> Honest(h, all, |lines|);
    }
  }

  lemma HonestLogPrefix(h: HexHash, lines: seq<LogLine>, k: nat)
    requires k <= |lines| && AllWritable(|lines|) && HonestLog(h, lines)
    ensures HonestLog(h, lines[..k])
  {
    forall i | 0 <= i < k ensures Honest(h, lines[..k], i) {
      assert Honest(h, lines, i);
      assert lines[..k] + lines[k..] == lines;
      HonestExtended(h, lines[..k], lines[k..], i);
    }
  }

  // Why the line after an honest log does not continue it.
  ghost predicate Faulty(h: HexHash, good: seq<LogLine>, line: LogLine, report: Report)
    requires AllWritable(|good| + 1) && HonestLog(h, good)
  {
    && report.checked == Some(|good|)
    && (report.reason == UnreadableRecordVersion <==> line.Versioned? && line.version != RECEIPT_VERSION)
    && (report.verdict == Unverifiable <==> report.reason == UnreadableRecordVersion)
    && (report.verdict == Broken <==> report.reason in {MalformedReceiptRecord, ReceiptSeqGap, ReceiptHeadMismatch})
    && (report.reason in {ReceiptSeqGap, ReceiptHeadMismatch} ==> Readable(line) && report.broken == line.fields.receiptSeq)
    && (report.reason == ReceiptSeqGap <==> Readable(line) && line.fields.receiptSeq.value != |good|)
    && (report.reason == ReceiptHeadMismatch <==>
          && Readable(line) && line.fields.receiptSeq.value == |good|
          && line.fields.receiptHead.value !=
             ReceiptHead(h, |good|, HeadAfter(h, Acknowledged(good)), HashOf(line)))
  }

  method VerifyReceiptLog(h: HexHash, log: Option<seq<LogLine>>) returns (report: Report)
    requires log.Some? ==> AllWritable(|log.value|)
    ensures log.None? ==> report == Report(Ok, None, NotRecorded, None)
    ensures log.Some? ==>
              var lines := NonBlank(log.value);
              && (report.verdict == Ok <==> HonestLog(h, lines))
              && (report.verdict == Ok ==> report == Report(Ok, Some(|lines|), NoReason, None))
              && (report.verdict != Ok ==>
                    && report.checked.Some? && report.checked.value < |lines|
                    && HonestLog(h, lines[..report.checked.value])
                    && Faulty(h, lines[..report.checked.value], lines[report.checked.value], report))
  {
    hide NonBlank, Honest, HeadAfter, ReceiptHead;
    if log.None? {
      return Report(Ok, None, NotRecorded, None);
    }
    EmptyLog(h);
    var lines := log.value;
    ghost var all := NonBlank(lines);
    var chain := new ReceiptChain(h);
    var checked: nat := 0;
    ghost var good: seq<LogLine> := [];
    for i := 0 to |lines|
      invariant good == NonBlank(lines[..i]) && checked == |good| <= i
      invariant HonestLog(h, good) && chain.Holds(h, Acknowledged(good))
      invariant fresh(chain)
    {
      var line := lines[i];
      NonBlankStep(lines, i);
      if line.BlankLine? {
        continue;
      }
      NonBlankContinues(lines, i);
      HonestLogSnoc(h, good, line);
      if line.NotJson? || line.NoVersion? {
        NotHonest(h, lines, i);
        return Report(Broken, Some(checked), MalformedReceiptRecord, None);
      }
      if line.version != RECEIPT_VERSION {
        NotHonest(h, lines, i);
        return Report(Unverifiable, Some(checked), UnreadableRecordVersion, None);
      }
      var f := line.fields;
      if f.receiptSeq.None? || f.receiptHead.None? || f.entryHash.None? {
        NotHonest(h, lines, i);
        return Report(Broken, Some(checked), MalformedReceiptRecord, None);
      }
      var link := chain.Acknowledge(h, f.entryHash.value, Acknowledged(good));
      if link.None? {
        NotHonest(h, lines, i);
        return Report(Broken, Some(checked), MalformedReceiptRecord, None);
      }
      if f.receiptSeq.value != link.value.0 {
        NotHonest(h, lines, i);
        return Report(Broken, Some(checked), ReceiptSeqGap, f.receiptSeq);
      }
      if f.receiptHead.value != link.value.1 {
        NotHonest(h, lines, i);
        return Report(Broken, Some(checked), ReceiptHeadMismatch, f.receiptSeq);
      }
      assert Acknowledged(good + [line]) == Acknowledged(good) + [f.entryHash.value];
      good := good + [line];
      checked := checked + 1;
    }
    assert lines[..|lines|] == lines;
    return Report(Ok, Some(checked), NoReason, None);
  }

  lemma EmptyLog(h: HexHash)
    ensures NonBlank([]) == [] && HonestLog(h, [])
  {
  }

  lemma NonBlankStep(lines: seq<LogLine>, i: nat)
    requires i < |lines|
    ensures NonBlank(lines[..i + 1]) == NonBlank(lines[..i]) + if lines[i] == BlankLine then [] else [lines[i]]
  {
    assert lines[..i + 1][..i] == lines[..i];
  }

  // The non-blank lines start with those seen so far and the current one.
  lemma {:induction false} NonBlankContinues(lines: seq<LogLine>, i: nat)
    requires i < |lines| && lines[i] != BlankLine
    ensures var good, all := NonBlank(lines[..i]), NonBlank(lines);
            |good| < |all| && all[..|good|] == good && all[|good|] == lines[i]
    decreases |lines|
  {
    if i < |lines| - 1 {
      NonBlankContinues(lines[..|lines| - 1], i);
      assert lines[..|lines| - 1][..i] == lines[..i];
    }
  }

  lemma NotHonest(h: HexHash, lines: seq<LogLine>, i: nat)
    requires i < |lines| && lines[i] != BlankLine && AllWritable(|lines|)
    requires var good := NonBlank(lines[..i]);
             HonestLog(h, good) && !HonestLog(h, good + [lines[i]])
    ensures !HonestLog(h, NonBlank(lines))
  {
    hide NonBlank, HonestLog;
    NonBlankContinues(lines, i);
    var good, all := NonBlank(lines[..i]), NonBlank(lines);
    assert all[..|good| + 1] == good + [lines[i]];
    if HonestLog(h, all) {
      HonestLogPrefix(h, all, |good| + 1);
    }
  }

  // Line i of a replay is the hash of a frame that holds i, the head before it, or sixty-four zeros, and
  // the acknowledged hash, in this order.
  lemma ReceiptsLink(h: HexHash, lines: seq<LogLine>, i: nat) returns (frame: Bytes)
    requires AllWritable(|lines|) && HonestLog(h, lines) && i < |lines|
    ensures lines[i].Versioned? && lines[i].version == 1 && lines[i].fields.receiptSeq == Some(i)
    ensures lines[i].fields.receiptHead == Some(h(frame)) && lines[i].fields.entryHash.Some?
    ensures i > 0 ==> lines[i - 1].Versioned? && lines[i - 1].fields.receiptHead.Some?
    ensures ParseFrame(frame) ==
            Some((ReceiptKind, [Decimal(i), if i == 0 then Genesis() else lines[i - 1].fields.receiptHead.value,
                                lines[i].fields.entryHash.value]))
  {
    hide ParseFrame, Frame, Genesis;
    assert Honest(h, lines, i) && Readable(lines[i]);
    var hashes := Acknowledged(lines)[..i + 1];
    assert hashes[..i] == Acknowledged(lines)[..i] && hashes[i] == HashOf(lines[i]);
    if i > 0 {
      assert Honest(h, lines, i - 1) && Readable(lines[i - 1]);
    }
    var prev := HeadAfter(h, hashes[..i]);
    frame := LinkFrame(i, prev, HashOf(lines[i]));
    FrameRoundTrip(ReceiptKind, LinkFields(i, prev, HashOf(lines[i])));
  }

  // Why a line is not accepted, told from the line.
  lemma FaultyMeans(h: HexHash, good: seq<LogLine>, line: LogLine, report: Report)
    requires AllWritable(|good| + 1) && HonestLog(h, good) && Faulty(h, good, line, report)
    requires line != BlankLine && report.verdict != Ok && !HonestLog(h, good + [line])
    ensures report.checked == Some(|good|)
    ensures line.Versioned? && line.version != 1 <==> report.verdict == Unverifiable
    ensures report.verdict == Unverifiable <==> report.reason == UnreadableRecordVersion
    ensures line.NotJson? || line.NoVersion? ==> report.verdict == Broken && report.reason == MalformedReceiptRecord
    ensures line.Versioned? && line.version == 1 ==>
              var f := line.fields;
              if f.receiptSeq.None? || f.receiptHead.None? || f.entryHash.None? || !IsHex64(f.entryHash.value) then
                report.verdict == Broken && report.reason == MalformedReceiptRecord
              else
                && report.verdict == Broken && report.broken == f.receiptSeq
                && report.reason == if f.receiptSeq.value != |good| then ReceiptSeqGap else ReceiptHeadMismatch
  {
    HonestLogSnoc(h, good, line);
  }

  // Resuming from the last line is replaying from genesis.
  lemma ResumeIsReplay(h: HexHash, lines: seq<LogLine>)
    requires |lines| > 0 && AllWritable(|lines|) && HonestLog(h, lines)
    ensures var last := lines[|lines| - 1].fields;
            last.receiptSeq.value == |lines| - 1 && last.receiptHead.value == HeadAfter(h, Acknowledged(lines))
  {
    assert Honest(h, lines, |lines| - 1);
    assert Acknowledged(lines)[..|lines|] == Acknowledged(lines);
  }

  // Two honest logs with one head, at whatever positions, tell the same story up to it.
  lemma HeadsBindLogs(h: HexHash, a: seq<LogLine>, b: seq<LogLine>, i: nat, j: nat)
    requires AllWritable(|a|) && AllWritable(|b|) && HonestLog(h, a) && HonestLog(h, b)
    requires i < |a| && j < |b| && a[i].fields.receiptHead == b[j].fields.receiptHead
    ensures match LinkCollision(h, Acknowledged(a)[..i + 1], Acknowledged(b)[..j + 1])
            case Some((x, y)) => Collides(h, x, y)
            case None => i == j && Acknowledged(a)[..i + 1] == Acknowledged(b)[..j + 1]
  {
    assert Honest(h, a, i) && Honest(h, b, j);
    ReceiptBinds(h, Acknowledged(a)[..i + 1], Acknowledged(b)[..j + 1]);
  }
}
