/** One hosted chain: its segments, its receipt log, and the operations of the storage layer. */
module Chains {
  import opened Binary
  import opened Frames
  import opened Receipts

  // A parsed envelope. The server never recomputes entryHash.
  datatype Entry = Entry(seqNo: nat, prevHash: Hex64, entryHash: Hex64, body: Bytes)

  // What the next entry of a segment must carry.
  function Tail(segment: seq<Entry>): (nat, Hex64) {
    if segment == [] then (0, Genesis())
    else var last := segment[|segment| - 1]; (last.seqNo + 1, last.entryHash)
  }

  predicate Extends(segment: seq<Entry>, e: Entry) {
    (e.seqNo, e.prevHash) == Tail(segment)
  }

  // Contiguous from zero and linked by prev_hash.
  predicate Linked(segment: seq<Entry>) {
    forall i :: 0 <= i < |segment| ==> Extends(segment[..i], segment[i])
  }

  lemma LinkedSnoc(segment: seq<Entry>, e: Entry)
    requires Linked(segment) && Extends(segment, e)
    ensures Linked(segment + [e])
  {
    var s := segment + [e];
    forall i | 0 <= i < |s| ensures Extends(s[..i], s[i]) {
      assert s[..i] == segment[..i];
      assert segment[..|segment|] == segment;
    }
  }

  lemma {:induction false} LinkedSeqNos(segment: seq<Entry>, i: nat)
    requires Linked(segment) && i < |segment|
    ensures segment[i].seqNo == i
    ensures segment[i].prevHash == if i == 0 then Genesis() else segment[i - 1].entryHash
  {
    assert Extends(segment[..i], segment[i]);
    if i > 0 {
      LinkedSeqNos(segment, i - 1);
    }
  }

  // ----- The state of one chain, and what its operations do to it -----

  datatype Store = Store(segments: seq<seq<Entry>>, log: seq<LogLine>) {
    function Active(): seq<Entry>
      requires |segments| > 0
    {
      segments[|segments| - 1]
    }

    function Posted(e: Entry): Store
      requires |segments| > 0
    {
      this.(segments := segments[|segments| - 1 := Active() + [e]])
    }

    // The closing segment is left as it is; the new one starts with the binding entry.
    function Rotated(binding: Entry): Store {
      this.(segments := segments + [[binding]])
    }
  }

  function AckLine(h: HexHash, log: seq<LogLine>, e: Entry): LogLine
    requires AllReadable(log) && AllWritable(|log| + 1)
  {
    var head := ReceiptHead(h, |log|, HeadAfter(h, Acknowledged(log)), e.entryHash);
    Versioned(RECEIPT_VERSION, Fields(Some(e.seqNo), Some(e.entryHash), Some(|log|), Some(head)))
  }

  function Stored(segments: seq<seq<Entry>>): seq<Entry> {
    if segments == [] then [] else Stored(segments[..|segments| - 1]) + segments[|segments| - 1]
  }

  datatype AppendResult =
    | PreconditionFailed(expected: (nat, Hex64))
    | Accepted(seqNo: nat, entryHash: Hex64, receiptSeq: int, receiptHead: Hex64)

  class ChainStore {
    var segments: seq<seq<Entry>>
    var log: seq<LogLine>

    ghost function View(): Store
      reads this
    {
      Store(segments, log)
    }

    ghost predicate Valid(h: HexHash)
      reads this
    {
      && |segments| > 0 && (forall i :: 0 <= i < |segments| ==> Linked(segments[i]))
      && AllWritable(|log|) && HonestLog(h, log)
    }

    constructor (ghost h: HexHash)
      ensures Valid(h) && View() == Store([[]], [])
    {
      segments, log := [[]], [];
    }

    // None is "no entries yet" (404).
    method Head() returns (r: Option<(nat, Hex64)>)
      requires |segments| > 0
      ensures r == if View().Active() == [] then None
                   else Some((View().Active()[|View().Active()| - 1].seqNo, View().Active()[|View().Active()| - 1].entryHash))
    {
      var active := segments[|segments| - 1];
      if active == [] {
        return None;
      }
      var last := active[|active| - 1];
      return Some((last.seqNo, last.entryHash));
    }

    // Under the chain's lock: the precondition is checked where the tail is decided.
    method AppendLocked(ghost h: HexHash, e: Entry) returns (stored: bool)
      requires Valid(h)
      modifies this`segments
      ensures Valid(h)
      ensures stored <==> Extends(old(View()).Active(), e)
      ensures View() == if stored then old(View()).Posted(e) else old(View())
    {
      var active := segments[|segments| - 1];
      var tail := Tail(active);
      if tail.0 != e.seqNo || tail.1 != e.prevHash {
        return false;
      }
      LinkedSnoc(active, e);
      segments := segments[|segments| - 1 := active + [e]];
      return true;
    }

    // Under the receipt log's own lock: resume from the last line, append one.
    method AcknowledgeStored(h: HexHash, e: Entry) returns (link: (int, Hex64))
      requires Valid(h) && Writable(|log|)
      modifies this`log
      ensures Valid(h)
      ensures View() == old(View()).(log := old(log) + [AckLine(h, old(log), e)])
      ensures link.0 == |old(log)| && link.1 == HeadAfter(h, Acknowledged(log))
    {
      hide Honest, HeadAfter, ReceiptHead, Linked, IsHex64;
      ghost var hashes := Acknowledged(log);
      EmptyHead(h);
      var chain: ReceiptChain;
      if |log| == 0 {
        chain := new ReceiptChain(h);
      } else {
        ResumeIsReplay(h, log);
        var prior := log[|log| - 1].fields;
        var resumed := ReceiptChain.Resume(prior.receiptSeq.value, prior.receiptHead.value);
        chain := resumed;
      }
      assert chain.Holds(h, hashes);
      var l := chain.Acknowledge(h, e.entryHash, hashes);
      link := l.value;
      AckContinues(h, log, e);
      log := log + [Versioned(RECEIPT_VERSION, Fields(Some(e.seqNo), Some(e.entryHash), Some(link.0), Some(link.1)))];
    }

    // open_segmented, once it has decided to rotate.
    method Rotate(ghost h: HexHash, binding: Entry) returns (done: bool)
      requires Valid(h)
      modifies this`segments
      ensures Valid(h)
      ensures done <==> old(View()).Active() != [] && Extends([], binding)
      ensures View() == if done then old(View()).Rotated(binding) else old(View())
    {
      if segments[|segments| - 1] == [] || (binding.seqNo, binding.prevHash) != Tail([]) {
        return false;
      }
      LinkedSnoc([], binding);
      assert [] + [binding] == [binding];
      segments := segments + [[binding]];
      return true;
    }

    // What other handlers do between two steps of this one.
    method Interfere(h: HexHash, events: seq<Event>)
      requires Valid(h) && AllWritable(|log| + |events|)
      modifies this
      ensures Valid(h) && Grew(old(segments), segments)
      ensures segments == old(segments) || |Stored(segments)| > |Stored(old(segments))|
      ensures |Stored(segments)| <= |Stored(old(segments))| + |events|
      ensures old(log) <= log && |log| <= |old(log)| + |events|
      ensures events == [] ==> View() == old(View())
    {
      hide Stored, HonestLog, Linked, Extends, Grew, AckLine;
      GrewNot(segments);
      for i := 0 to |events|
        invariant Valid(h) && Grew(old(segments), segments)
        invariant segments == old(segments) || |Stored(segments)| > |Stored(old(segments))|
        invariant |Stored(segments)| <= |Stored(old(segments))| + i
        invariant old(log) <= log && |log| <= |old(log)| + i
        invariant i == 0 ==> View() == old(View())
      {
        ghost var before := View();
        match events[i]
        case Posts(e) =>
          var stored := AppendLocked(h, e);
          if stored {
            PostedGrows(old(segments), before, e);
          }
        case Acknowledges(e) => var _ := AcknowledgeStored(h, e);
        case Rotates(binding) =>
          var rotated := Rotate(h, binding);
          if rotated {
            RotatedGrows(old(segments), before, binding);
          }
      }
    }

    // between is what other handlers do after the chain's lock is released and before the log's is taken.
    method Append(h: HexHash, e: Entry, between: seq<Event>) returns (r: AppendResult)
      requires Valid(h) && AllWritable(|log| + |between| + 1)
      modifies this
      ensures Valid(h)
      ensures r.PreconditionFailed? <==> !Extends(old(View()).Active(), e)
      ensures r.PreconditionFailed? ==> View() == old(View()) && r.expected == Tail(View().Active())
      // Stored once, at the end, then acknowledged by the log's last line.
      ensures r.Accepted? ==>
                && Grew(old(View()).Posted(e).segments, segments)
                && |old(log)| <= |log| - 1 <= |old(log)| + |between| && old(log) <= log[..|log| - 1]
                && log[|log| - 1] == AckLine(h, log[..|log| - 1], e)
                && r == Accepted(e.seqNo, e.entryHash, |log| - 1, HeadAfter(h, Acknowledged(log)))
      ensures r.Accepted? && between == [] ==>
                View() == old(View()).Posted(e).(log := old(log) + [AckLine(h, old(log), e)])
    {
      hide Stored, HonestLog, Linked, Extends, AckLine, HeadAfter;
      var stored := AppendLocked(h, e);
      if !stored {
        return PreconditionFailed(Tail(segments[|segments| - 1]));
      }
      Interfere(h, between);
      ghost var before := log;
      var link := AcknowledgeStored(h, e);
      assert log[..|log| - 1] == before;
      return Accepted(e.seqNo, e.entryHash, link.0, link.1);
    }
  }

  // One step of another handler.
  datatype Event = Posts(entry: Entry) | Acknowledges(entry: Entry) | Rotates(binding: Entry)

  // Closed segments stay as they are, the active one is only appended to, and new ones may follow.
  predicate Grew(before: seq<seq<Entry>>, after: seq<seq<Entry>>) {
    && 0 < |before| <= |after|
    && (forall i :: 0 <= i < |before| - 1 ==> after[i] == before[i])
    && before[|before| - 1] <= after[|before| - 1]
  }

  lemma GrewNot(segments: seq<seq<Entry>>)
    requires |segments| > 0
    ensures Grew(segments, segments)
  {
  }

  lemma GrewOn(a: seq<seq<Entry>>, b: seq<seq<Entry>>, c: seq<seq<Entry>>)
    requires Grew(a, b) && Grew(b, c)
    ensures Grew(a, c)
  {
  }

  lemma PostedGrows(first: seq<seq<Entry>>, s: Store, e: Entry)
    requires |s.segments| > 0 && Grew(first, s.segments)
    ensures Grew(first, s.Posted(e).segments) && |Stored(s.Posted(e).segments)| == |Stored(s.segments)| + 1
  {
    hide Grew;
    var n := |s.segments| - 1;
    assert s.Posted(e).segments[..n] == s.segments[..n];
    PostedGrew(s, e);
    GrewOn(first, s.segments, s.Posted(e).segments);
  }

  lemma PostedGrew(s: Store, e: Entry)
    requires |s.segments| > 0
    ensures Grew(s.segments, s.Posted(e).segments)
  {
  }

  lemma RotatedGrows(first: seq<seq<Entry>>, s: Store, binding: Entry)
    requires |s.segments| > 0 && Grew(first, s.segments)
    ensures Grew(first, s.Rotated(binding).segments) && |Stored(s.Rotated(binding).segments)| == |Stored(s.segments)| + 1
  {
    hide Grew;
    assert s.Rotated(binding).segments[..|s.segments|] == s.segments;
    RotatedGrew(s, binding);
    GrewOn(first, s.segments, s.Rotated(binding).segments);
  }

  lemma RotatedGrew(s: Store, binding: Entry)
    requires |s.segments| > 0
    ensures Grew(s.segments, s.Rotated(binding).segments)
  {
  }

  lemma EmptyHead(h: HexHash)
    ensures HeadAfter(h, []) == Genesis()
  {
  }

  lemma AckContinues(h: HexHash, log: seq<LogLine>, e: Entry)
    requires AllWritable(|log| + 1) && HonestLog(h, log)
    ensures HonestLog(h, log + [AckLine(h, log, e)])
    ensures Acknowledged(log + [AckLine(h, log, e)]) == Acknowledged(log) + [e.entryHash]
    ensures HeadAfter(h, Acknowledged(log) + [e.entryHash]) == ReceiptHead(h, |log|, HeadAfter(h, Acknowledged(log)), e.entryHash)
  {
    HonestLogSnoc(h, log, AckLine(h, log, e));
    HeadAfterSnoc(h, Acknowledged(log), e.entryHash);
  }

  // ----- cross_check_receipts -----

  predicate StoredAt(stored: seq<Entry>, seqNo: int, entryHash: Text) {
    exists k :: 0 <= k < |stored| && stored[k].seqNo == seqNo && stored[k].entryHash == entryHash
  }

  predicate Named(line: LogLine) {
    line.Versioned? && line.version == RECEIPT_VERSION && line.fields.seqNo.Some? && line.fields.entryHash.Some?
  }

  // The acknowledged entry is still stored under its seq.
  predicate Backed(line: LogLine, stored: seq<Entry>) {
    Named(line) && StoredAt(stored, line.fields.seqNo.value, line.fields.entryHash.value)
  }

  predicate AllBacked(lines: seq<LogLine>, stored: seq<Entry>) {
    forall i :: 0 <= i < |lines| ==> Backed(lines[i], stored)
  }

  predicate SeqStored(stored: seq<Entry>, seqNo: int) {
    exists k :: 0 <= k < |stored| && stored[k].seqNo == seqNo
  }

  ghost predicate Groups(bySeq: map<int, seq<Text>>, stored: seq<Entry>) {
    && (forall s :: s in bySeq <==> SeqStored(stored, s))
    && (forall s, t :: s in bySeq ==> (t in bySeq[s] <==> StoredAt(stored, s, t)))
  }

  method GroupBySeq(stored: seq<Entry>) returns (bySeq: map<int, seq<Text>>)
    ensures Groups(bySeq, stored)
  {
    bySeq := map[];
    for i := 0 to |stored|
      invariant Groups(bySeq, stored[..i])
    {
      var s, t := stored[i].seqNo, stored[i].entryHash;
      GroupsSnoc(bySeq, stored[..i], stored[i]);
      bySeq := bySeq[s := (if s in bySeq then bySeq[s] else []) + [t]];
      assert stored[..i + 1] == stored[..i] + [stored[i]];
    }
    assert stored[..|stored|] == stored;
  }

  lemma GroupsSnoc(bySeq: map<int, seq<Text>>, stored: seq<Entry>, e: Entry)
    requires Groups(bySeq, stored)
    ensures Groups(bySeq[e.seqNo := (if e.seqNo in bySeq then bySeq[e.seqNo] else []) + [e.entryHash]], stored + [e])
  {
    var more := stored + [e];
    assert more[|stored|] == e;
    forall s ensures SeqStored(more, s) <==> SeqStored(stored, s) || s == e.seqNo {
      if SeqStored(stored, s) {
        var k :| 0 <= k < |stored| && stored[k].seqNo == s;
        assert more[k] == stored[k];
      }
    }
    forall s, t ensures StoredAt(more, s, t) <==> StoredAt(stored, s, t) || (s == e.seqNo && t == e.entryHash) {
      if StoredAt(stored, s, t) {
        var k :| 0 <= k < |stored| && stored[k].seqNo == s && stored[k].entryHash == t;
        assert more[k] == stored[k];
      }
      if StoredAt(more, s, t) && !(s == e.seqNo && t == e.entryHash) {
        var k :| 0 <= k < |more| && more[k].seqNo == s && more[k].entryHash == t;
        assert stored[k] == more[k];
      }
    }
    forall s, t | StoredAt(stored, s, t) ensures SeqStored(stored, s) {
    }
  }

  method CrossCheckReceipts(log: Option<seq<LogLine>>, stored: seq<Entry>) returns (report: Report)
    ensures log.None? ==> report == Report(Ok, None, NotRecorded, None)
    ensures log.Some? && NotJson in log.value ==> report == Report(Broken, Some(0), MalformedReceiptRecord, None)
    ensures log.Some? && NotJson !in log.value ==>
              var lines := NonBlank(log.value);
              && (report.verdict == Ok <==> AllBacked(lines, stored))
              && (report.verdict == Ok ==> report == Report(Ok, Some(|lines|), NoReason, None))
              && (report.verdict != Ok ==>
                    && report.checked.Some? && report.checked.value < |lines|
                    && AllBacked(lines[..report.checked.value], stored)
                    && Unbacked(lines[report.checked.value], stored, report))
  {
    if log.None? {
      return Report(Ok, None, NotRecorded, None);
    }
    if NotJson in log.value {
      return Report(Broken, Some(0), MalformedReceiptRecord, None);
    }
    var lines := NonBlank(log.value);
    var bySeq := GroupBySeq(stored);
    for i := 0 to |lines|
      invariant AllBacked(lines[..i], stored)
    {
      var line := lines[i];
      NonBlankKeeps(log.value);
      if line.NoVersion? {
        return Report(Broken, Some(i), MalformedReceiptRecord, None);
      }
      if line.version != RECEIPT_VERSION {
        return Report(Unverifiable, Some(i), UnreadableRecordVersion, None);
      }
      if line.fields.seqNo.None? || line.fields.entryHash.None? {
        return Report(Broken, Some(i), MalformedReceiptRecord, None);
      }
      var s := line.fields.seqNo.value;
      if s !in bySeq {
        assert StoredAt(stored, s, line.fields.entryHash.value) ==> SeqStored(stored, s);
        return Report(Broken, Some(i), ReceiptBeyondHead, Some(s));
      }
      if line.fields.entryHash.value !in bySeq[s] {
        return Report(Broken, Some(i), ReceiptMismatch, Some(s));
      }
    }
    return Report(Ok, Some(|lines|), NoReason, None);
  }

  // Why a line is not backed by the trail.
  ghost predicate Unbacked(line: LogLine, stored: seq<Entry>, report: Report) {
    && (report.verdict == Unverifiable <==> report.reason == UnreadableRecordVersion)
    && (report.verdict == Broken <==> report.reason in {MalformedReceiptRecord, ReceiptBeyondHead, ReceiptMismatch})
    && (report.reason == UnreadableRecordVersion <==> line.Versioned? && line.version != RECEIPT_VERSION)
    && (report.reason in {ReceiptBeyondHead, ReceiptMismatch} ==> Named(line) && report.broken == line.fields.seqNo)
    && (report.reason == ReceiptBeyondHead <==> Named(line) && !SeqStored(stored, line.fields.seqNo.value))
    && (report.reason == ReceiptMismatch <==>
          && Named(line) && SeqStored(stored, line.fields.seqNo.value)
          && !StoredAt(stored, line.fields.seqNo.value, line.fields.entryHash.value))
  }

  // The same, told from the line and the entries.
  lemma UnbackedMeans(line: LogLine, stored: seq<Entry>, report: Report)
    requires Unbacked(line, stored, report) && line != BlankLine && report.verdict != Ok && !Backed(line, stored)
    ensures line.Versioned? && line.version != 1 <==> report.verdict == Unverifiable
    ensures report.verdict == Unverifiable <==> report.reason == UnreadableRecordVersion
    ensures line.NotJson? || line.NoVersion? ==> report.verdict == Broken && report.reason == MalformedReceiptRecord
    ensures line.Versioned? && line.version == 1 ==>
              var f := line.fields;
              if f.seqNo.None? || f.entryHash.None? then report.verdict == Broken && report.reason == MalformedReceiptRecord
              else
                && report.verdict == Broken && report.broken == f.seqNo
                && (forall k :: 0 <= k < |stored| && stored[k].seqNo == f.seqNo.value ==> stored[k].entryHash != f.entryHash.value)
                && report.reason == if exists k :: 0 <= k < |stored| && stored[k].seqNo == f.seqNo.value then ReceiptMismatch
                                    else ReceiptBeyondHead
  {
  }

  // What it is for a line to be backed.
  lemma BackedMeans(line: LogLine, stored: seq<Entry>)
    ensures Backed(line, stored) <==>
              && line.Versioned? && line.version == 1
              && exists k :: 0 <= k < |stored| && line.fields.seqNo == Some(stored[k].seqNo)
                             && line.fields.entryHash == Some(stored[k].entryHash)
  {
    if k :| 0 <= k < |stored| && line.Versioned? && line.fields.seqNo == Some(stored[k].seqNo)
            && line.fields.entryHash == Some(stored[k].entryHash) {
      assert StoredAt(stored, stored[k].seqNo, stored[k].entryHash);
    }
  }

  lemma {:induction false} NonBlankKeeps(lines: seq<LogLine>)
    ensures forall line :: line in NonBlank(lines) ==> line in lines
    decreases |lines|
  {
    if lines != [] {
      NonBlankKeeps(lines[..|lines| - 1]);
    }
  }
}
