/** RemoteBackend.append: read the head, build, POST, and try again after a 409, at most 32 times. */
module RemoteClient {
  import opened Binary
  import opened Receipts
  import opened Chains
  import Protocol

  // The builder's contract: the entry carries the seq and prev_hash it was handed.
  ghost predicate Fits(build: (nat, Hex64) -> Entry) {
    forall next: nat, prev: Hex64 :: build(next, prev).seqNo == next && build(next, prev).prevHash == prev
  }

  // The head as a writer reads it: 404 is (0, genesis), else one past the tail.
  method ReadHead(store: ChainStore) returns (next: nat, prev: Hex64)
    requires |store.segments| > 0
    ensures (next, prev) == Tail(store.View().Active())
  {
    var head := store.Head();
    if head.None? {
      return 0, Genesis();
    }
    return head.value.0 + 1, head.value.1;
  }

  // What other clients' handlers do around one attempt: between its head read and its POST, and between
  // the two locks its own handler takes.
  datatype Around = Around(before: seq<Event>, between: seq<Event>)

  function Room(others: nat -> Around, attempts: nat): nat {
    if attempts == 0 then 0
    else Room(others, attempts - 1) + |others(attempts - 1).before| + |others(attempts - 1).between|
  }

  lemma {:induction false} RoomFor(others: nat -> Around, i: nat, attempts: nat)
    requires i < attempts
    ensures Room(others, i) + |others(i).before| + |others(i).between| <= Room(others, attempts)
    decreases attempts
  {
    if i < attempts - 1 {
      RoomFor(others, i, attempts - 1);
    }
  }

  // The entry is stored where the call found or made room, and not before the call.
  predicate StoredNew(before: seq<seq<Entry>>, after: seq<seq<Entry>>, at: nat, e: Entry) {
    && 0 < |before| <= at + 1 <= |after|
    && e.seqNo < |after[at]| && after[at][e.seqNo] == e
    && (at == |before| - 1 ==> e.seqNo >= |before[at]|)
  }

  // The line acknowledges the entry with the head of the log replayed up to it.
  ghost predicate AckedAt(h: HexHash, log: seq<LogLine>, at: int, head: Hex64, e: Entry) {
    && 0 <= at < |log| && AllReadable(log[..at]) && AllWritable(at + 1)
    && log[at] == AckLine(h, log[..at], e) && log[at].fields.receiptHead == Some(head)
  }

  method BuildOnHead(store: ChainStore, build: (nat, Hex64) -> Entry) returns (e: Entry)
    requires |store.segments| > 0 && Fits(build)
    ensures Extends(store.View().Active(), e)
  {
    var next, prev := ReadHead(store);
    e := build(next, prev);
  }

  method Attempt(h: HexHash, store: ChainStore, build: (nat, Hex64) -> Entry, around: Around)
    returns (r: Option<Entry>, receipt: Option<(int, Hex64)>, ghost at: nat)
    requires store.Valid(h) && Fits(build)
    requires AllWritable(|store.log| + |around.before| + |around.between| + 1)
    modifies store
    ensures store.Valid(h)
    ensures Grew(old(store.segments), store.segments) && old(store.log) <= store.log
    ensures r.Some? <==> receipt.Some?
    ensures r.Some? ==>
              && StoredNew(old(store.segments), store.segments, at, r.value)
              && |old(store.log)| <= receipt.value.0
              && AckedAt(h, store.log, receipt.value.0, receipt.value.1, r.value)
    ensures r.None? ==>
              && |Stored(store.segments)| > |Stored(old(store.segments))|
              && |store.log| <= |old(store.log)| + |around.before|
  {
    hide HonestLog, Linked, AckLine, Stored, Grew, StoredNew, AckedAt, Extends, Fits, Tail, AllReadable, HeadAfter;
    at := 0;
    ghost var seen := store.segments;
    var entry := BuildOnHead(store, build);
    store.Interfere(h, around.before);
    ghost var now := store.View();
    var answer := store.Append(h, entry, around.between);
    if answer.PreconditionFailed? {
      assert now.segments != seen;
      return None, None, at;
    }
    at := |now.segments| - 1;
    StoredHere(seen, now, entry, store.segments);
    AckedHere(h, store.log, entry, answer.receiptHead);
    return Some(entry), Some((answer.receiptSeq, answer.receiptHead)), at;
  }

  method Append(h: HexHash, store: ChainStore, build: (nat, Hex64) -> Entry, others: nat -> Around)
    returns (r: Option<Entry>, receipt: Option<(int, Hex64)>, ghost at: nat, ghost attempts: nat)
    requires store.Valid(h) && Fits(build)
    requires AllWritable(|store.log| + Room(others, Protocol.MAX_RACE_RETRIES) + 1)
    modifies store
    ensures store.Valid(h)
    ensures Grew(old(store.segments), store.segments) && old(store.log) <= store.log
    ensures r.Some? <==> receipt.Some?
    // Success: stored by this call at the seq it carries, and acknowledged by a line of the log's own.
    ensures r.Some? ==>
              && StoredNew(old(store.segments), store.segments, at, r.value)
              && |old(store.log)| <= receipt.value.0
              && AckedAt(h, store.log, receipt.value.0, receipt.value.1, r.value)
    // Giving up: other writers moved the tail at least once in each of the 32 attempts.
    ensures 1 <= attempts <= 32 && (r.None? ==> attempts == 32)
    ensures r.None? ==> |Stored(store.segments)| >= |Stored(old(store.segments))| + 32
  {
    hide HonestLog, Linked, AckLine, Stored, Grew, StoredNew, AckedAt, Extends, Room, Fits;
    GrewNot(store.segments);
    at, attempts := 0, 0;
    RoomNone(others);
    ghost var first := store.segments;
    for i := 0 to Protocol.MAX_RACE_RETRIES
      invariant store.Valid(h) && Grew(first, store.segments)
      invariant old(store.log) <= store.log && |store.log| <= |old(store.log)| + Room(others, i)
      invariant |Stored(store.segments)| >= |Stored(first)| + i && attempts == i
    {
      attempts := attempts + 1;
      RoomFor(others, i, Protocol.MAX_RACE_RETRIES);
      RoomNext(others, i);
      ghost var before := store.segments;
      r, receipt, at := Attempt(h, store, build, others(i));
      GrewOn(first, before, store.segments);
      if r.Some? {
        StoredSince(first, before, store.segments, at, r.value);
        return;
      }
    }
    return None, None, at, attempts;
  }

  lemma StoredSince(first: seq<seq<Entry>>, before: seq<seq<Entry>>, after: seq<seq<Entry>>, at: nat, e: Entry)
    requires Grew(first, before) && StoredNew(before, after, at, e)
    ensures StoredNew(first, after, at, e)
  {
  }

  lemma RoomNone(others: nat -> Around)
    ensures Room(others, 0) == 0
  {
  }

  lemma RoomNext(others: nat -> Around, i: nat)
    ensures Room(others, i + 1) == Room(others, i) + |others(i).before| + |others(i).between|
  {
  }

  lemma StoredHere(first: seq<seq<Entry>>, s: Store, e: Entry, last: seq<seq<Entry>>)
    requires |s.segments| > 0 && Linked(s.Active()) && Extends(s.Active(), e)
    requires Grew(first, s.segments) && Grew(s.Posted(e).segments, last)
    ensures StoredNew(first, last, |s.segments| - 1, e) && Grew(first, last)
  {
    PostedGrows(first, s, e);
    GrewOn(first, s.Posted(e).segments, last);
    LinkedSnoc(s.Active(), e);
    LinkedSeqNos(s.Active() + [e], |s.Active()|);
  }

  lemma AckedHere(h: HexHash, log: seq<LogLine>, e: Entry, head: Hex64)
    requires |log| > 0 && AllWritable(|log|) && HonestLog(h, log)
    requires log[|log| - 1] == AckLine(h, log[..|log| - 1], e) && head == HeadAfter(h, Acknowledged(log))
    ensures AckedAt(h, log, |log| - 1, head, e)
  {
    ResumeIsReplay(h, log);
  }
}
