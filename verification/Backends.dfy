/** The JSONL file backend refines the in-memory list backend. */
module Backends {
  import opened Binary
  import opened Frames
  import opened TailReader
  import opened IntegrityScan

  // header stands for the header fields other than seq and prev_hash.
  datatype Entry = Entry(seqNo: int, prevHash: Text, header: Bytes, entryHash: Text, payload: Option<Bytes>)

  // The envelope on one line: dumps after to_obj, from_obj after loads, and whether text is JSON at all.
  datatype Codec = Codec(dumps: Entry -> Bytes, loads: Bytes -> Option<Entry>, parses: Bytes -> bool)

  // What is assumed of JSON and base64: an entry with a payload round-trips, with or without the newline,
  // and its line has no CR or LF and is not blank.
  ghost predicate Faithful(codec: Codec) {
    forall e: Entry :: e.payload.Some? ==>
      var line := codec.dumps(e);
      && codec.loads(line) == Some(e) && codec.loads(line + [LF]) == Some(e)
      && codec.parses(Strip(line + [LF]))
      && (forall i :: 0 <= i < |line| ==> line[i] != LF && line[i] != CR)
      && Strip(line + [LF]) != []
  }

  // None is a builder that raises.
  type Builder = (int, Text) -> Option<Entry>

  datatype Outcome = Appended(entry: Entry) | BuildRaised | PayloadMissing

  // Sixty-four zeros.
  function Genesis(): (g: Text)
    ensures |g| == 64 && forall i :: 0 <= i < 64 ==> g[i] == '0' as int
  {
    seq(64, _ => 48)
  }

  // What append hands the builder.
  function Handed(entries: seq<Entry>): (int, Text) {
    if entries == [] then (0, Genesis())
    else (entries[|entries| - 1].seqNo + 1, entries[|entries| - 1].entryHash)
  }

  function OutcomeOf(entries: seq<Entry>, build: Builder): Outcome {
    var built := build(Handed(entries).0, Handed(entries).1);
    if built.None? then BuildRaised
    else if built.value.payload.None? then PayloadMissing
    else Appended(built.value)
  }

  // The list after append: longer by what was built, or untouched.
  function After(entries: seq<Entry>, build: Builder): seq<Entry> {
    var o := OutcomeOf(entries, build);
    if o.Appended? then entries + [o.entry] else entries
  }

  class MemoryBackend {
    var stored: seq<Entry>

    constructor ()
      ensures stored == []
    {
      stored := [];
    }

    method Append(build: Builder) returns (o: Outcome)
      modifies this
      ensures o == OutcomeOf(old(stored), build) && stored == After(old(stored), build)
      // In full: the builder gets the tail's seq + 1 and hash, or 0 and the zeros, and what it raises or
      // leaves out decides.
      ensures var n := |old(stored)|;
              var built := if n == 0 then build(0, Genesis()) else build(old(stored)[n - 1].seqNo + 1, old(stored)[n - 1].entryHash);
              && (built.None? ==> o == BuildRaised && stored == old(stored))
              && (built.Some? && built.value.payload.None? ==> o == PayloadMissing && stored == old(stored))
              && (built.Some? && built.value.payload.Some? ==> o == Appended(built.value) && stored == old(stored) + [built.value])
    {
      var built: Option<Entry>;
      if stored != [] {
        var last := stored[|stored| - 1];
        built := build(last.seqNo + 1, last.entryHash);
      } else {
        built := build(0, Genesis());
      }
      if built.None? {
        return BuildRaised;
      }
      if built.value.payload.None? {
        return PayloadMissing;
      }
      stored := stored + [built.value];
      return Appended(built.value);
    }

    method Entries() returns (snapshot: seq<Entry>)
      ensures snapshot == stored
    {
      snapshot := stored;
    }
  }

  // ----- The file -----

  function Serialised(codec: Codec, entries: seq<Entry>): Bytes {
    if entries == [] then []
    else Serialised(codec, entries[..|entries| - 1]) + codec.dumps(entries[|entries| - 1]) + [LF]
  }

  // A missing file is an empty trail.
  predicate Represents(codec: Codec, file: Option<Bytes>, entries: seq<Entry>) {
    && (forall i :: 0 <= i < |entries| ==> entries[i].payload.Some?)
    && if file.None? then entries == [] else file.value == Serialised(codec, entries)
  }

  // Text iteration with newline="": a line ends after LF, CR, or CR LF.
  function TextLineEnd(b: Bytes, from: nat): (end: nat)
    requires from < |b|
    ensures from < end <= |b|
    decreases |b| - from
  {
    if b[from] == LF then from + 1
    else if b[from] == CR then (if from + 1 < |b| && b[from + 1] == LF then from + 2 else from + 1)
    else if from + 1 == |b| then from + 1
    else TextLineEnd(b, from + 1)
  }

  lemma {:induction false} TextLineEndAt(b: Bytes, from: nat, end: nat)
    requires from <= end < |b| && b[end] == LF
    requires forall i :: from <= i < end ==> b[i] != LF && b[i] != CR
    ensures TextLineEnd(b, from) == end + 1
    decreases end - from
  {
    if from < end {
      TextLineEndAt(b, from + 1, end);
    }
  }

  lemma StoredLine(codec: Codec, file: Bytes, entries: seq<Entry>, k: nat)
    requires Faithful(codec) && Represents(codec, Some(file), entries) && k < |entries|
    ensures var from := |Serialised(codec, entries[..k])|;
            var line := codec.dumps(entries[k]) + [LF];
            && from < |file| && TextLineEnd(file, from) == from + |line|
            && from + |line| <= |file| && file[from..from + |line|] == line
            && |Serialised(codec, entries[..k + 1])| == from + |line|
  {
    var before, line := Serialised(codec, entries[..k]), codec.dumps(entries[k]) + [LF];
    assert entries[..k + 1][..k] == entries[..k];
    assert Serialised(codec, entries[..k + 1]) == before + line;
    SerialisedPrefix(codec, entries, k + 1);
    var from := |before|;
    assert file[from..from + |line|] == line;
    var payloads := entries[k].payload;
    forall i | from <= i < from + |line| - 1 ensures file[i] != LF && file[i] != CR {
      assert file[i] == line[i - from] == codec.dumps(entries[k])[i - from];
    }
    assert file[from + |line| - 1] == line[|line| - 1] == LF;
    TextLineEndAt(file, from, from + |line| - 1);
  }

  lemma {:induction false} SerialisedPrefix(codec: Codec, entries: seq<Entry>, k: nat)
    requires k <= |entries|
    ensures Serialised(codec, entries[..k]) <= Serialised(codec, entries)
    decreases |entries|
  {
    if k < |entries| {
      SerialisedPrefix(codec, entries[..|entries| - 1], k);
      assert entries[..|entries| - 1][..k] == entries[..k];
    } else {
      assert entries[..k] == entries;
    }
  }

  lemma NewlineIsBlank()
    ensures Strip([LF]) == []
  {
    assert [LF][1..] == [] && [LF][..0] == [];
  }

  // The last line of a trail is its last entry.
  lemma TailOfTrail(codec: Codec, file: Bytes, entries: seq<Entry>)
    requires Faithful(codec) && Represents(codec, Some(file), entries)
    ensures LastLine(file) == if entries == [] then None else Some(codec.dumps(entries[|entries| - 1]))
  {
    if entries != [] {
      var init, line := Serialised(codec, entries[..|entries| - 1]), codec.dumps(entries[|entries| - 1]);
      NewlineIsBlank();
      assert line == [] ==> line + [LF] == [LF];
      assert file == init + line + [LF];
      assert file[..|file| - 1] == init + line;
      assert (init + line)[|init + line| - 1] == line[|line| - 1];
      assert StripEnd(file) == init + line;
      if entries[..|entries| - 1] == [] {
        assert init == [] && init + line == line;
      } else {
        assert init[|init| - 1] == LF;
      }
      LastLfBefore(init, line);
      assert (init + line)[|init|..] == line;
    }
  }

  lemma {:induction false} LastLfBefore(init: Bytes, line: Bytes)
    requires init == [] || init[|init| - 1] == LF
    requires forall i :: 0 <= i < |line| ==> line[i] != LF
    ensures LastLf(init + line) == |init| - 1
    decreases |line|
  {
    if line == [] {
      assert init + line == init;
    } else {
      assert (init + line)[..|init + line| - 1] == init + line[..|line| - 1];
      LastLfBefore(init, line[..|line| - 1]);
    }
  }

  const TAIL_SEEK_CHUNK := 4096

  ghost function Held(file: Option<Bytes>): Bytes {
    if file.None? then [] else file.value
  }

  // A scan fires before every scanEvery-th append, but never before the first.
  ghost predicate ScanDue(every: Option<nat>, entries: seq<Entry>)
    requires every != Some(0)
  {
    every.Some? && entries != [] && Handed(entries).0 > 0 && (Handed(entries).0 + 1) % every.value == 0
  }

  ghost function Reported(codec: Codec, file: Bytes, r: Resume): Option<Corruption> {
    var at := StartAt(file, r);
    FirstBad(codec.parses, file, at.offset, at.lines)
  }

  ghost function Kept(codec: Codec, file: Bytes, r: Resume): Resume {
    Remembered(codec.parses, file, StartAt(file, r), r)
  }

  // seq n + 1 of the entry about to be appended is a multiple of the period, from seq 1 on.
  lemma ScanDueWhen(every: Option<nat>, entries: seq<Entry>)
    requires every != Some(0)
    ensures ScanDue(every, entries) <==>
            && every.Some? && entries != []
            && entries[|entries| - 1].seqNo >= 0 && (entries[|entries| - 1].seqNo + 2) % every.value == 0
  {
  }

  lemma NotEmpty(codec: Codec, file: Option<Bytes>, entries: seq<Entry>)
    requires Represents(codec, file, entries) && Handed(entries).0 > 0
    ensures entries != [] && file.Some?
  {
  }

  lemma Stores(codec: Codec, file: Option<Bytes>, entries: seq<Entry>, e: Entry)
    requires Represents(codec, file, entries) && e.payload.Some?
    ensures Represents(codec, Some(Held(file) + (codec.dumps(e) + [LF])), entries + [e])
  {
    assert (entries + [e])[..|entries|] == entries;
  }

  class JSONLBackend {
    var file: Option<Bytes>
    var scanner: Scanner
    const scanEvery: Option<nat>

    ghost predicate Valid(codec: Codec, entries: seq<Entry>)
      reads this
    {
      Represents(codec, file, entries)
    }

    constructor (every: Option<nat>)
      requires every != Some(0)
      ensures file.None? && scanEvery == every && fresh(scanner) && scanner.State() == Resume(0, 0)
    {
      file, scanEvery := None, every;
      scanner := new Scanner();
    }

    method TailLocked(codec: Codec, ghost entries: seq<Entry>) returns (next: int, prev: Text)
      requires Faithful(codec) && Valid(codec, entries)
      ensures (next, prev) == Handed(entries)
      ensures entries == [] ==> next == 0 && prev == Genesis()
      ensures entries != [] ==> next == entries[|entries| - 1].seqNo + 1 && prev == entries[|entries| - 1].entryHash
    {
      hide Serialised, LastLine, Genesis;
      var last := ReadLastLine(file, TAIL_SEEK_CHUNK);
      if file.Some? {
        TailOfTrail(codec, file.value, entries);
      }
      if last.None? {
        return 0, Genesis();
      }
      var e := codec.loads(last.value).value;
      return e.seqNo + 1, e.entryHash;
    }

    // The scan runs before the write and only warns.
    method Append(codec: Codec, build: Builder, ghost entries: seq<Entry>) returns (o: Outcome, warning: Option<Corruption>)
      requires Faithful(codec) && Valid(codec, entries) && scanEvery != Some(0)
      modifies this`file, scanner
      ensures o == OutcomeOf(entries, build)
      ensures Valid(codec, After(entries, build)) && Held(old(file)) <= Held(file)
      ensures !o.Appended? ==> file == old(file)
      ensures var n := |entries|;
              var built := if n == 0 then build(0, Genesis()) else build(entries[n - 1].seqNo + 1, entries[n - 1].entryHash);
              && (built.None? ==> o == BuildRaised)
              && (built.Some? && built.value.payload.None? ==> o == PayloadMissing)
              && (built.Some? && built.value.payload.Some? ==> o == Appended(built.value) && Valid(codec, entries + [built.value]))
      ensures warning == if ScanDue(scanEvery, entries) then Reported(codec, Held(old(file)), old(scanner.State())) else None
      ensures scanner.State() ==
              if ScanDue(scanEvery, entries) then Kept(codec, Held(old(file)), old(scanner.State())) else old(scanner.State())
    {
      hide Serialised, Faithful, Represents, FirstBad, Remembered;
      var next, prev := TailLocked(codec, entries);
      warning := None;
      if scanEvery.Some? && next > 0 && (next + 1) % scanEvery.value == 0 {
        NotEmpty(codec, file, entries);
        warning := scanner.Scan(codec.parses, file.value);
      }
      var built := build(next, prev);
      if built.None? {
        return BuildRaised, warning;
      }
      if built.value.payload.None? {
        return PayloadMissing, warning;
      }
      Stores(codec, file, entries, built.value);
      var line := codec.dumps(built.value);
      file := Some((if file.None? then [] else file.value) + (line + [LF]));
      return Appended(built.value), warning;
    }

    // None where a stored line cannot be read back.
    method Entries(codec: Codec, ghost entries: seq<Entry>) returns (r: Option<seq<Entry>>)
      requires Faithful(codec) && Valid(codec, entries)
      ensures r == Some(entries)
    {
      hide Serialised, Faithful, Represents, TextLineEnd, Strip;
      if file.None? {
        NothingRead(codec, entries);
        return Some([]);
      }
      var f, at, read := file.value, 0, [];
      ReadEnds(codec, f, entries, 0);
      while at < |f|
        invariant |read| <= |entries| && read == entries[..|read|]
        invariant at == Offset(codec, entries, |read|)
        invariant at <= |f| && (at < |f| <==> |read| < |entries|)
        decreases |f| - at
      {
        ReadsOne(codec, f, entries, |read|);
        ReadEnds(codec, f, entries, |read| + 1);
        var end := TextLineEnd(f, at);
        var line := f[at..end];
        if Strip(line) != [] {
          var e := codec.loads(line);
          if e.None? {
            return None;
          }
          read := read + [e.value];
        }
        at := end;
      }
      assert entries[..|entries|] == entries;
      return Some(read);
    }

    method EntryHashes(codec: Codec, ghost entries: seq<Entry>) returns (r: Option<seq<Text>>)
      requires Faithful(codec) && Valid(codec, entries)
      ensures r.Some? && |r.value| == |entries|
      ensures forall i :: 0 <= i < |entries| ==> r.value[i] == entries[i].entryHash
    {
      hide Serialised, Faithful, Represents, TextLineEnd, Strip;
      if file.None? {
        NothingRead(codec, entries);
        return Some([]);
      }
      var f, at, hashes := file.value, 0, [];
      ReadEnds(codec, f, entries, 0);
      while at < |f|
        invariant |hashes| <= |entries| && at == Offset(codec, entries, |hashes|)
        invariant at <= |f| && (at < |f| <==> |hashes| < |entries|)
        invariant forall i :: 0 <= i < |hashes| ==> hashes[i] == entries[i].entryHash
        decreases |f| - at
      {
        ReadsOne(codec, f, entries, |hashes|);
        ReadEnds(codec, f, entries, |hashes| + 1);
        var end := TextLineEnd(f, at);
        var line := f[at..end];
        if Strip(line) != [] {
          var e := codec.loads(line);
          if e.None? {
            return None;
          }
          hashes := hashes + [e.value.entryHash];
        }
        at := end;
      }
      return Some(hashes);
    }
  }

  // Where entry k's line starts.
  ghost function Offset(codec: Codec, entries: seq<Entry>, k: nat): nat
    requires k <= |entries|
  {
    |Serialised(codec, entries[..k])|
  }

  lemma NothingRead(codec: Codec, entries: seq<Entry>)
    requires Represents(codec, None, entries)
    ensures entries == []
  {
  }

  lemma ReadsOne(codec: Codec, file: Bytes, entries: seq<Entry>, k: nat)
    requires Faithful(codec) && Represents(codec, Some(file), entries) && k < |entries|
    ensures var from := Offset(codec, entries, k);
            && from < |file| && TextLineEnd(file, from) == Offset(codec, entries, k + 1)
            && var line := file[from..TextLineEnd(file, from)];
               Strip(line) != [] && codec.loads(line) == Some(entries[k])
  {
    hide Serialised, TextLineEnd, Strip, Faithful;
    LineReads(codec, entries[k]);
    StoredLine(codec, file, entries, k);
    var from, line := Offset(codec, entries, k), codec.dumps(entries[k]) + [LF];
    var end := from + |line|;
    assert TextLineEnd(file, from) == end && file[from..end] == line;
  }

  lemma LineReads(codec: Codec, e: Entry)
    requires Faithful(codec) && e.payload.Some?
    ensures Strip(codec.dumps(e) + [LF]) != [] && codec.loads(codec.dumps(e) + [LF]) == Some(e)
  {
  }

  lemma ReadEnds(codec: Codec, file: Bytes, entries: seq<Entry>, k: nat)
    requires Faithful(codec) && Represents(codec, Some(file), entries) && k <= |entries|
    ensures Offset(codec, entries, k) <= |file|
    ensures Offset(codec, entries, k) < |file| <==> k < |entries|
    ensures k == 0 ==> Offset(codec, entries, k) == 0
  {
    hide TextLineEnd, Strip, Faithful;
    assert k == 0 ==> entries[..k] == [];
    if k < |entries| {
      StoredLine(codec, file, entries, k);
    } else {
      assert entries[..k] == entries;
    }
  }

  lemma StoredLineEnd(codec: Codec, file: Bytes, entries: seq<Entry>, k: nat)
    requires Faithful(codec) && Represents(codec, Some(file), entries) && k < |entries|
    ensures var from, to := |Serialised(codec, entries[..k])|, |Serialised(codec, entries[..k + 1])|;
            from < to <= |file| && LineEnd(file, from) == to && file[to - 1] == LF && LineOk(codec.parses, file[from..to])
  {
    hide Serialised, LineEnd, TextLineEnd, Strip;
    StoredLine(codec, file, entries, k);
    var from, text := |Serialised(codec, entries[..k])|, codec.dumps(entries[k]);
    var to := from + |text| + 1;
    assert entries[k].payload.Some?;
    assert file[from..to] == text + [LF];
    assert file[to - 1] == file[from..to][|text|] == LF;
    forall i | from <= i < to - 1 ensures file[i] != LF {
      assert file[i] == file[from..to][i - from] == text[i - from];
    }
  }

  // A scan of a trail that append wrote finds nothing, from any stored line on.
  lemma {:induction false} CleanTrail(codec: Codec, file: Bytes, entries: seq<Entry>, k: nat)
    requires Faithful(codec) && Represents(codec, Some(file), entries) && k <= |entries|
    ensures FirstBad(codec.parses, file, |Serialised(codec, entries[..k])|, k) == None
    decreases |entries| - k
  {
    hide Serialised, LineEnd, LineOk, Faithful;
    if k < |entries| {
      StoredLineEnd(codec, file, entries, k);
      CleanTrail(codec, file, entries, k + 1);
    } else {
      assert entries[..k] == entries;
    }
  }

  lemma Quiet(codec: Codec, file: Option<Bytes>, entries: seq<Entry>, r: Resume)
    requires Faithful(codec) && Represents(codec, file, entries) && Trusted(codec.parses, Held(file), r)
    ensures Reported(codec, Held(file), r) == None && Trusted(codec.parses, Held(file), Kept(codec, Held(file), r))
  {
    hide FirstBad, Remembered, Cleared, Faithful;
    ResumedScanAgrees(codec.parses, Held(file), r);
    if file.Some? {
      assert entries[..0] == [];
      CleanTrail(codec, file.value, entries, 0);
    } else {
      NoMoreLines(codec.parses, [], Resume(0, 0), r);
    }
  }

  // One append on each, the file representing the list before and after.
  method AppendBoth(codec: Codec, memory: MemoryBackend, jsonl: JSONLBackend, build: Builder)
    returns (o: Outcome, p: Outcome, warning: Option<Corruption>)
    requires Faithful(codec) && jsonl.Valid(codec, memory.stored) && jsonl.scanEvery != Some(0)
    requires Trusted(codec.parses, Held(jsonl.file), jsonl.scanner.State())
    modifies memory, jsonl`file, jsonl.scanner
    ensures o == p == OutcomeOf(old(memory.stored), build) && memory.stored == After(old(memory.stored), build)
    ensures jsonl.Valid(codec, memory.stored) && warning == None
    ensures Trusted(codec.parses, Held(jsonl.file), jsonl.scanner.State())
  {
    hide Faithful, Represents, Cleared, After, OutcomeOf;
    ghost var before, file, r := memory.stored, jsonl.file, jsonl.scanner.State();
    Quiet(codec, file, before, r);
    o := memory.Append(build);
    p, warning := jsonl.Append(codec, build, before);
    TrustedGrows(codec.parses, Held(file), Held(jsonl.file), jsonl.scanner.State());
  }

  // Every sequence of appends, whatever the builders do: same arguments handed, same outcomes, same
  // entries read back, and no scan ever warns about a trail that only append wrote.
  method RunBoth(codec: Codec, builders: seq<Builder>, every: Option<nat>)
    returns (inMemory: seq<Outcome>, onDisk: seq<Outcome>, list: seq<Entry>, read: Option<seq<Entry>>, warned: bool)
    requires Faithful(codec) && every != Some(0)
    ensures inMemory == onDisk && |inMemory| == |builders|
    ensures read == Some(list)
    ensures list == Successes(inMemory)
    // With builders that carry what they are handed the entries are numbered from 0 and linked.
    ensures AllCarry(builders) ==> forall i :: 0 <= i < |list| ==> list[i].seqNo == i
    ensures AllCarry(builders) ==> forall i :: 0 < i < |list| ==> list[i].prevHash == list[i - 1].entryHash
    ensures AllCarry(builders) && list != [] ==> list[0].prevHash == Genesis()
    ensures !warned
  {
    hide Faithful, Represents, Cleared, AllCarry, Contiguous;
    var memory := new MemoryBackend();
    var jsonl := new JSONLBackend(every);
    NothingStored(codec);
    inMemory, onDisk, warned := [], [], false;
    for i := 0 to |builders|
      invariant |inMemory| == i && inMemory == onDisk && !warned
      invariant fresh(memory) && fresh(jsonl) && fresh(jsonl.scanner) && jsonl.scanEvery == every
      invariant jsonl.Valid(codec, memory.stored) && memory.stored == Successes(inMemory)
      invariant AllCarry(builders) ==> Contiguous(memory.stored)
      invariant Trusted(codec.parses, Held(jsonl.file), jsonl.scanner.State())
    {
      ghost var before := memory.stored;
      var o, p, warning := AppendBoth(codec, memory, jsonl, builders[i]);
      ContiguousOn(before, builders, i, memory.stored);
      assert (inMemory + [o])[..i] == inMemory;
      inMemory, onDisk, warned := inMemory + [o], onDisk + [p], warned || warning.Some?;
    }
    list := memory.Entries();
    read := jsonl.Entries(codec, memory.stored);
    if AllCarry(builders) {
      ContiguousMeans(list);
    }
  }

  // The entries of the appends that succeeded.
  function Successes(outcomes: seq<Outcome>): seq<Entry> {
    if outcomes == [] then []
    else
      var last := outcomes[|outcomes| - 1];
      Successes(outcomes[..|outcomes| - 1]) + if last.Appended? then [last.entry] else []
  }

  ghost predicate Carries(build: Builder) {
    forall next: int, prev: Text :: build(next, prev).Some? ==>
      build(next, prev).value.seqNo == next && build(next, prev).value.prevHash == prev
  }

  ghost predicate AllCarry(builders: seq<Builder>) {
    forall i :: 0 <= i < |builders| ==> Carries(builders[i])
  }

  predicate FollowsAt(entries: seq<Entry>, i: nat)
    requires i < |entries|
  {
    entries[i].seqNo == i && entries[i].prevHash == if i == 0 then Genesis() else entries[i - 1].entryHash
  }

  predicate Contiguous(entries: seq<Entry>) {
    forall i :: 0 <= i < |entries| ==> FollowsAt(entries, i)
  }

  lemma ContiguousMeans(entries: seq<Entry>)
    requires Contiguous(entries)
    ensures forall i :: 0 <= i < |entries| ==> entries[i].seqNo == i
    ensures forall i :: 0 < i < |entries| ==> entries[i].prevHash == entries[i - 1].entryHash
    ensures entries != [] ==> entries[0].prevHash == Genesis()
  {
    assert entries != [] ==> FollowsAt(entries, 0);
    forall i | 0 <= i < |entries| ensures entries[i].seqNo == i {
      assert FollowsAt(entries, i);
    }
    forall i | 0 < i < |entries| ensures entries[i].prevHash == entries[i - 1].entryHash {
      assert FollowsAt(entries, i);
    }
  }

  lemma ContiguousOn(before: seq<Entry>, builders: seq<Builder>, i: nat, after: seq<Entry>)
    requires i < |builders| && after == After(before, builders[i])
    ensures AllCarry(builders) && Contiguous(before) ==> Contiguous(after)
  {
    hide Genesis;
    if AllCarry(builders) && Contiguous(before) {
      var build := builders[i];
      assert Carries(build);
      var (next, prev) := Handed(before);
      var built := build(next, prev);
      if built.Some? && built.value.payload.Some? {
        assert before != [] ==> FollowsAt(before, |before| - 1);
        assert after == before + [built.value];
        forall i | 0 <= i < |after| ensures FollowsAt(after, i) {
          assert i < |before| ==> FollowsAt(before, i);
        }
      }
    }
  }

  lemma NothingStored(codec: Codec)
    ensures Represents(codec, None, []) && Trusted(codec.parses, [], Resume(0, 0)) && Contiguous([])
  {
  }
}
