/** The step relation is what the storage methods do: any run can be carried out with them. */
module ProtocolStorage {
  import opened Binary
  import opened Receipts
  import opened Chains
  import opened Protocol
  import RemoteClient

  // One action, with the chain in a ChainStore: heads are read, entries stored, receipts issued and
  // segments rotated by its methods alone.
  method Perform(h: HexHash, store: ChainStore, s: State, a: Action) returns (t: State)
    requires Inv(h, s) && Do(h, s, a).Some? && store.View() == s.store
    modifies store
    ensures Do(h, s, a) == Some(t) && store.View() == t.store
  {
    hide Inv, Linked, HonestLog, Extends, AckLine, Tail, Honest, HeadAfter;
    StoreIsValid(h, s);
    match a
    case Rotate(binding) =>
      var done := store.Rotate(h, binding);
      t := s.(store := Store(store.segments, store.log), moves := s.moves + 1);
    case ReadHead(c) =>
      var next, prev := RemoteClient.ReadHead(store);
      t := s.(clients := Turned(s, c, Read(next, prev, s.moves)));
    case Post(c) =>
      t := PerformPost(h, store, s, c);
    case Acknowledge(c) =>
      t := PerformAcknowledge(h, store, s, c);
    case StartCall(c) => t := Do(h, s, a).value;
    case Build(c, _) => t := Do(h, s, a).value;
    case BringForeign(c, _) => t := Do(h, s, a).value;
    case Answer(c) => t := Do(h, s, a).value;
    case Retry(c) => t := Do(h, s, a).value;
    case Crash(c) => t := Do(h, s, a).value;
  }

  lemma StoreIsValid(h: HexHash, s: State)
    requires Inv(h, s)
    ensures |s.store.segments| > 0 && (forall i :: 0 <= i < |s.store.segments| ==> Linked(s.store.segments[i]))
    ensures AllWritable(|s.store.log|) && HonestLog(h, s.store.log) && AllReadable(s.store.log)
  {
  }

  // The handler's first half. The client is told of a refusal, and otherwise waits for its receipt.
  method PerformPost(h: HexHash, store: ChainStore, s: State, c: nat) returns (t: State)
    requires store.Valid(h) && store.View() == s.store
    requires Do(h, s, Post(c)).Some?
    modifies store`segments
    ensures Do(h, s, Post(c)) == Some(t) && store.View() == t.store
  {
    hide Linked, HonestLog, Extends;
    var cl := s.clients[c];
    var e := cl.pc.entry;
    var segment, index := |store.segments| - 1, |store.segments[|store.segments| - 1]|;
    var stored := store.AppendLocked(h, e);
    if stored {
      t := State(Store(store.segments, store.log), Turned(s, c, Held(|s.posts|, e)), s.moves + 1,
                 s.posts + [Placed(segment, index, e)], s.acked, s.answers);
    } else if cl.pc.Built? {
      t := s.(clients := s.clients[c := Client(Ready(cl.pc.at), cl.since, cl.losses + 1)]);
    } else {
      t := s.(clients := s.clients[c := cl.(pc := Idle)]);
    }
  }

  // The second half: the receipt is the one the log was given.
  method PerformAcknowledge(h: HexHash, store: ChainStore, s: State, c: nat) returns (t: State)
    requires store.Valid(h) && store.View() == s.store
    requires Do(h, s, Acknowledge(c)).Some?
    modifies store`log
    ensures Do(h, s, Acknowledge(c)) == Some(t) && store.View() == t.store
  {
    hide Linked, HonestLog, AckLine, Honest, HeadAfter;
    var k, e := s.clients[c].pc.k, s.clients[c].pc.entry;
    ghost var log := store.log;
    var link := store.AcknowledgeStored(h, e);
    AckHead(h, log, e, store.log);
    t := s.(store := Store(store.segments, store.log),
            clients := Turned(s, c, Acked(k, e, link.0, link.1)),
            acked := s.acked + [k]);
  }

  lemma AckHead(h: HexHash, log: seq<LogLine>, e: Entry, after: seq<LogLine>)
    requires AllWritable(|log| + 1) && HonestLog(h, log)
    requires after == log + [AckLine(h, log, e)]
    ensures HonestLog(h, after) && AckLine(h, log, e).fields.receiptHead == Some(HeadAfter(h, Acknowledged(after)))
  {
    AckContinues(h, log, e);
  }

  // Any run, with any number of clients, from an empty chain.
  method RunStorage(h: HexHash, n: nat, run: seq<Action>) returns (store: ChainStore, s: State)
    requires Exec(h, Initial(n), run).Some?
    ensures Exec(h, Initial(n), run) == Some(s) && store.View() == s.store
  {
    hide Do, Inv;
    store := new ChainStore(h);
    s := Initial(n);
    for i := 0 to |run|
      invariant fresh(store) && Exec(h, Initial(n), run[..i]) == Some(s) && store.View() == s.store
    {
      assert run[..i + 1][..i] == run[..i];
      PrefixRuns(h, Initial(n), run, i + 1);
      EveryRunKeepsInv(h, n, run[..i]);
      s := Perform(h, store, s, run[i]);
    }
    assert run[..|run|] == run;
  }

  lemma {:induction false} PrefixRuns(h: HexHash, s: State, run: seq<Action>, i: nat)
    requires Exec(h, s, run).Some? && i <= |run|
    ensures Exec(h, s, run[..i]).Some?
  {
    assert run[..i] + run[i..] == run;
    ExecAppend(h, s, run[..i], run[i..]);
  }
}
