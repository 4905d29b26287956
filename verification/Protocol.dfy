/**
 Any number of clients against one hosted chain, every interleaving: read the head, build, POST under
 the chain's lock, acknowledge under the receipt log's lock, answer. A client or its handler may crash
 between any two of these, foreign envelopes may be posted, and the chain may rotate.
 */
module Protocol {
  import opened Binary
  import opened Frames
  import opened Receipts
  import opened Chains

  const MAX_RACE_RETRIES := 32

  // at is the number of tail moves when the attempt's head was read; k numbers the successful POST.
  // Ready is between attempts: at the start of a call, or after a 409.
  datatype PC =
    | Idle
    | Read(next: nat, prev: Hex64, at: nat)
    | Built(entry: Entry, at: nat)
    | Foreign(entry: Entry)
    | Held(k: nat, entry: Entry)
    | Acked(k: nat, entry: Entry, receiptSeq: nat, head: Hex64)
    | Ready(at: nat)
    | GaveUp

  // since is the number of tail moves when the append call began, losses its 409s so far.
  datatype Client = Client(pc: PC, since: nat, losses: nat)

  // Where a successful POST landed.
  datatype Placed = Placed(segment: nat, index: nat, entry: Entry)

  // A 201: the entry of the k-th successful POST and its receipt.
  datatype Answered = Answered(k: nat, entry: Entry, receiptSeq: nat, head: Hex64)

  // moves counts changes of the tail. posts, acked and answers are history: the successful POSTs, the
  // POST each log line acknowledges, and what clients were answered.
  datatype State = State(store: Store, clients: seq<Client>, moves: nat,
                         posts: seq<Placed>, acked: seq<nat>, answers: seq<Answered>)

  datatype Action =
    | StartCall(c: nat)
    | ReadHead(c: nat)
    | Build(c: nat, entry: Entry)
    | BringForeign(c: nat, entry: Entry)
    | Post(c: nat)
    | Acknowledge(c: nat)
    | Answer(c: nat)
    | Retry(c: nat)
    | Crash(c: nat)
    | Rotate(binding: Entry)

  function Initial(n: nat): State {
    State(Store([[]], []), seq(n, _ => Client(Idle, 0, 0)), 0, [], [], [])
  }

  function Turned(s: State, c: nat, pc: PC): seq<Client>
    requires c < |s.clients|
  {
    s.clients[c := s.clients[c].(pc := pc)]
  }

  // What the handler does under the chain's lock; a lost race is remembered only for a built entry.
  function Posting(s: State, c: nat, e: Entry, refused: Client): State
    requires c < |s.clients| && |s.store.segments| > 0
  {
    if Extends(s.store.Active(), e) then
      State(s.store.Posted(e), Turned(s, c, Held(|s.posts|, e)), s.moves + 1,
            s.posts + [Placed(|s.store.segments| - 1, |s.store.Active()|, e)], s.acked, s.answers)
    else s.(clients := s.clients[c := refused])
  }

  function Acknowledging(h: HexHash, s: State, c: nat, k: nat, e: Entry): State
    requires c < |s.clients|
    requires AllReadable(s.store.log) && AllWritable(|s.store.log| + 1)
  {
    var line := AckLine(h, s.store.log, e);
    s.(store := s.store.(log := s.store.log + [line]),
       clients := Turned(s, c, Acked(k, e, |s.store.log|, line.fields.receiptHead.value)),
       acked := s.acked + [k])
  }

  // The state after an action, or None where it cannot happen.
  function Do(h: HexHash, s: State, a: Action): Option<State> {
    if a.Rotate? then
      if |s.store.segments| > 0 && s.store.Active() != [] && Extends([], a.binding) then
        Some(s.(store := s.store.Rotated(a.binding), moves := s.moves + 1))
      else None
    else if a.c >= |s.clients| || |s.store.segments| == 0 then None
    else
      var c, cl := a.c, s.clients[a.c];
      match a
      case StartCall(_) =>
        if cl.pc.Idle? || cl.pc.GaveUp? then Some(s.(clients := s.clients[c := Client(Ready(s.moves), s.moves, 0)])) else None
      case ReadHead(_) =>
        if cl.pc.Ready? && cl.losses < MAX_RACE_RETRIES then
          var tail := Tail(s.store.Active());
          Some(s.(clients := Turned(s, c, Read(tail.0, tail.1, s.moves))))
        else None
      case Build(_, e) =>
        if cl.pc.Read? && e.seqNo == cl.pc.next && e.prevHash == cl.pc.prev
        then Some(s.(clients := Turned(s, c, Built(e, cl.pc.at)))) else None
      case BringForeign(_, e) =>
        if cl.pc.Idle? then Some(s.(clients := Turned(s, c, Foreign(e)))) else None
      case Post(_) =>
        if cl.pc.Built? then Some(Posting(s, c, cl.pc.entry, Client(Ready(cl.pc.at), cl.since, cl.losses + 1)))
        else if cl.pc.Foreign? then Some(Posting(s, c, cl.pc.entry, cl.(pc := Idle)))
        else None
      case Acknowledge(_) =>
        if cl.pc.Held? && AllReadable(s.store.log) && AllWritable(|s.store.log| + 1)
        then Some(Acknowledging(h, s, c, cl.pc.k, cl.pc.entry)) else None
      case Answer(_) =>
        if cl.pc.Acked?
        then Some(s.(clients := Turned(s, c, Idle), answers := s.answers + [Answered(cl.pc.k, cl.pc.entry, cl.pc.receiptSeq, cl.pc.head)]))
        else None
      case Retry(_) =>
        if cl.pc.Ready? && cl.losses >= MAX_RACE_RETRIES then Some(s.(clients := Turned(s, c, GaveUp))) else None
      case Crash(_) => Some(s.(clients := Turned(s, c, Idle)))
  }

  function Exec(h: HexHash, s: State, run: seq<Action>): Option<State> {
    if run == [] then Some(s)
    else
      var before := Exec(h, s, run[..|run| - 1]);
      if before.None? then None else Do(h, before.value, run[|run| - 1])
  }

  // ----- Every stored entry that is not a rotation binding, in storage order -----

  function Bindings(segment: nat): nat {
    if segment == 0 then 0 else 1
  }

  function PlacesIn(segment: nat, entries: seq<Entry>): seq<Placed> {
    var skip := Bindings(segment);
    if |entries| <= skip then []
    else seq(|entries| - skip, i requires 0 <= i < |entries| - skip => Placed(segment, skip + i, entries[skip + i]))
  }

  function Places(segments: seq<seq<Entry>>): seq<Placed> {
    if segments == [] then []
    else
      var n := |segments| - 1;
      Places(segments[..n]) + PlacesIn(n, segments[n])
  }

  lemma PlacesInSnoc(segment: nat, entries: seq<Entry>, e: Entry)
    requires |entries| >= Bindings(segment)
    ensures PlacesIn(segment, entries + [e]) == PlacesIn(segment, entries) + [Placed(segment, |entries|, e)]
  {
  }

  lemma PlacesPosted(segments: seq<seq<Entry>>, e: Entry)
    requires |segments| > 0 && |segments[|segments| - 1]| >= Bindings(|segments| - 1)
    ensures var n := |segments| - 1;
            Places(segments[n := segments[n] + [e]]) == Places(segments) + [Placed(n, |segments[n]|, e)]
  {
    hide PlacesIn;
    var n := |segments| - 1;
    var after := segments[n := segments[n] + [e]];
    assert after[..n] == segments[..n];
    PlacesInSnoc(n, segments[n], e);
    var init, last, p := Places(segments[..n]), PlacesIn(n, segments[n]), [Placed(n, |segments[n]|, e)];
    assert init + (last + p) == (init + last) + p;
  }

  lemma PlacesRotated(segments: seq<seq<Entry>>, binding: Entry)
    requires |segments| > 0
    ensures Places(segments + [[binding]]) == Places(segments)
  {
    assert (segments + [[binding]])[..|segments|] == segments;
  }

  // The list names each such entry exactly once, with what is stored there.
  lemma {:induction false} PlacesAreStored(segments: seq<seq<Entry>>, k: nat)
    requires k < |Places(segments)|
    ensures var p := Places(segments)[k];
            && p.segment < |segments| && Bindings(p.segment) <= p.index < |segments[p.segment]|
            && segments[p.segment][p.index] == p.entry
            && forall j :: 0 <= j < |Places(segments)| && j != k ==>
                 Places(segments)[j].segment != p.segment || Places(segments)[j].index != p.index
    decreases |segments|
  {
    var n := |segments| - 1;
    var init, last := Places(segments[..n]), PlacesIn(n, segments[n]);
    if k < |init| {
      PlacesAreStored(segments[..n], k);
    } else {
      forall j | 0 <= j < |init| ensures init[j].segment < n {
        PlacesAreStored(segments[..n], j);
      }
    }
  }

  lemma {:induction false} StoredIsPlaced(segments: seq<seq<Entry>>, s: nat, i: nat)
    requires s < |segments| && Bindings(s) <= i < |segments[s]|
    ensures Placed(s, i, segments[s][i]) in Places(segments)
    decreases |segments|
  {
    var n := |segments| - 1;
    if s < n {
      StoredIsPlaced(segments[..n], s, i);
    } else {
      assert PlacesIn(n, segments[n])[i - Bindings(n)] == Placed(s, i, segments[s][i]);
    }
  }

  // ----- What every step keeps -----

  ghost predicate GoodSegments(segments: seq<seq<Entry>>) {
    && |segments| > 0
    && (forall i :: 0 <= i < |segments| ==> Linked(segments[i]) && |segments[i]| >= Bindings(i))
  }

  // Log line i acknowledges POST acked[i], and no POST is acknowledged twice.
  ghost predicate GoodLog(h: HexHash, s: State) {
    && AllWritable(|s.store.log|) && HonestLog(h, s.store.log)
    && |s.acked| == |s.store.log|
    && (forall i :: 0 <= i < |s.acked| ==> Acknowledges(s, i))
    && (forall i, j :: 0 <= i < j < |s.acked| ==> s.acked[i] != s.acked[j])
  }

  ghost predicate Acknowledges(s: State, i: nat)
    requires i < |s.acked| == |s.store.log|
  {
    && s.acked[i] < |s.posts|
    && Named(s.store.log[i])
    && s.store.log[i].fields.seqNo.value == s.posts[s.acked[i]].entry.seqNo
    && s.store.log[i].fields.entryHash.value == s.posts[s.acked[i]].entry.entryHash
  }

  // A POST is held by at most one handler, and only until it is acknowledged.
  ghost predicate GoodHandlers(s: State) {
    && (forall c :: 0 <= c < |s.clients| && s.clients[c].pc.Held? ==>
          && s.clients[c].pc.k < |s.posts| && s.posts[s.clients[c].pc.k].entry == s.clients[c].pc.entry
          && s.clients[c].pc.k !in s.acked)
    && (forall c, d :: 0 <= c < d < |s.clients| && s.clients[c].pc.Held? && s.clients[d].pc.Held? ==>
          s.clients[c].pc.k != s.clients[d].pc.k)
  }

  // The receipt is the log line that acknowledges that POST, and carries its entry.
  ghost predicate Given(s: State, a: Answered) {
    && a.k < |s.posts| && s.posts[a.k].entry == a.entry
    && a.receiptSeq < |s.store.log| == |s.acked| && s.acked[a.receiptSeq] == a.k
    && s.store.log[a.receiptSeq] ==
       Versioned(1, Fields(Some(a.entry.seqNo), Some(a.entry.entryHash), Some(a.receiptSeq), Some(a.head)))
  }

  function AnswerOf(pc: PC): Answered
    requires pc.Acked?
  {
    Answered(pc.k, pc.entry, pc.receiptSeq, pc.head)
  }

  ghost predicate GoodAnswers(s: State) {
    && (forall c :: 0 <= c < |s.clients| && s.clients[c].pc.Acked? ==> Given(s, AnswerOf(s.clients[c].pc)))
    && (forall i :: 0 <= i < |s.answers| ==> Given(s, s.answers[i]))
  }

  // An attempt made with an unmoved tail still fits, and every loss so far is paid for by a move.
  ghost predicate GoodAttempt(s: State, cl: Client)
    requires |s.store.segments| > 0
  {
    cl.losses <= 32 &&
    match cl.pc
    case Read(next, prev, at) =>
      && cl.losses < 32 && cl.since + cl.losses <= at <= s.moves
      && (at == s.moves ==> (next, prev) == Tail(s.store.Active()))
    case Built(e, at) =>
      && cl.losses < 32 && cl.since + cl.losses <= at <= s.moves
      && (at == s.moves ==> Extends(s.store.Active(), e))
    case Ready(at) => cl.since + cl.losses <= s.moves && at <= s.moves && (cl.losses > 0 ==> at < s.moves)
    case GaveUp => cl.losses == 32 && cl.since + 32 <= s.moves
    case _ => true
  }

  ghost predicate GoodAttempts(s: State) {
    && |s.store.segments| > 0
    && forall c :: 0 <= c < |s.clients| ==> GoodAttempt(s, s.clients[c])
  }

  ghost predicate Inv(h: HexHash, s: State) {
    && GoodSegments(s.store.segments)
    && s.posts == Places(s.store.segments)
    && s.moves == |s.posts| + |s.store.segments| - 1
    && GoodLog(h, s) && GoodHandlers(s) && GoodAnswers(s) && GoodAttempts(s)
  }

  lemma InitialInv(h: HexHash, n: nat)
    ensures Inv(h, Initial(n))
  {
    hide HonestLog, Linked, Acknowledges, Given, AllReadable;
    var segments: seq<seq<Entry>> := [[]];
    assert segments[..0] == [] && PlacesIn(0, []) == [];
    LinkedEmpty();
    EmptyLog(h);
  }

  // A step that only turns one client, to a program counter that is good where it stands.
  lemma TurnKeepsInv(h: HexHash, s: State, c: nat, cl: Client)
    requires Inv(h, s) && c < |s.clients|
    requires !cl.pc.Held? && !cl.pc.Acked? && GoodAttempt(s, cl)
    ensures Inv(h, s.(clients := s.clients[c := cl]))
  {
    hide GoodLog, GoodSegments, Places, GoodAttempt, Given;
    SegmentsNonempty(s);
    var t := s.(clients := s.clients[c := cl]);
    LogStands(h, s, t);
    LogLength(h, s);
    AnswersStand(s, t);
    AttemptsStand(s, t);
    AttemptStands(s, t, cl);
  }

  lemma AttemptStands(s: State, t: State, cl: Client)
    requires |s.store.segments| > 0 && t.store.segments == s.store.segments && t.moves == s.moves
    requires GoodAttempt(s, cl)
    ensures GoodAttempt(t, cl)
  {
  }

  // Moving the tail can only make an attempt made before it stale.
  lemma AttemptsAfterMove(s: State, t: State)
    requires GoodAttempts(s) && |t.store.segments| > 0 && t.moves == s.moves + 1
    ensures forall c :: 0 <= c < |s.clients| ==> GoodAttempt(t, s.clients[c])
  {
    forall c | 0 <= c < |s.clients| ensures GoodAttempt(t, s.clients[c]) {
      assert GoodAttempt(s, s.clients[c]);
    }
  }

  // History only grows, so the log stays explained by it.
  lemma LogStands(h: HexHash, s: State, t: State)
    requires GoodLog(h, s) && s.posts <= t.posts && t.store.log == s.store.log && t.acked == s.acked
    ensures GoodLog(h, t)
  {
    forall i | 0 <= i < |t.acked| ensures Acknowledges(t, i) {
      assert Acknowledges(s, i);
    }
  }

  lemma PostedIsUnacked(h: HexHash, s: State)
    requires GoodLog(h, s)
    ensures |s.posts| !in s.acked
  {
    forall i | 0 <= i < |s.acked| ensures s.acked[i] < |s.posts| {
      assert Acknowledges(s, i);
    }
  }

  lemma PostKeepsSegments(s: State, e: Entry)
    requires GoodSegments(s.store.segments) && s.posts == Places(s.store.segments) && Extends(s.store.Active(), e)
    ensures GoodSegments(s.store.Posted(e).segments)
    ensures Places(s.store.Posted(e).segments) == s.posts + [Placed(|s.store.segments| - 1, |s.store.Active()|, e)]
  {
    hide Places, Extends, Linked;
    LinkedSnoc(s.store.Active(), e);
    PlacesPosted(s.store.segments, e);
  }

  lemma PostKeepsInv(h: HexHash, s: State, c: nat, e: Entry, refused: Client)
    requires Inv(h, s) && c < |s.clients| && Extends(s.store.Active(), e)
    ensures Inv(h, Posting(s, c, e, refused))
  {
    hide GoodLog, GoodSegments, Places, GoodAttempt, Given, Extends;
    SegmentsNonempty(s);
    var t := Posting(s, c, e, refused);
    PostKeepsSegments(s, e);
    SegmentsNonempty(t);
    AttemptsAfterMove(s, t);
    FewLosses(s, s.clients[c]);
    HeldIsGood(t, t.clients[c]);
    LogStands(h, s, t);
    LogLength(h, s);
    PostedIsUnacked(h, s);
    AnswersStand(s, t);
  }

  lemma SegmentsNonempty(s: State)
    requires GoodSegments(s.store.segments)
    ensures |s.store.segments| > 0
  {
  }

  lemma HeldIsGood(s: State, cl: Client)
    requires |s.store.segments| > 0 && cl.pc.Held? && cl.losses <= 32
    ensures GoodAttempt(s, cl)
  {
  }

  lemma RotateKeepsInv(h: HexHash, s: State, binding: Entry)
    requires Inv(h, s) && Extends([], binding)
    ensures Inv(h, s.(store := s.store.Rotated(binding), moves := s.moves + 1))
  {
    hide GoodLog, Places, Extends, GoodAttempt, Linked;
    var t := s.(store := s.store.Rotated(binding), moves := s.moves + 1);
    LinkedEmpty();
    LinkedSnoc([], binding);
    assert [] + [binding] == [binding];
    PlacesRotated(s.store.segments, binding);
    AttemptsAfterMove(s, t);
    LogStands(h, s, t);
    LogLength(h, s);
    AnswersStand(s, t);
  }

  lemma LinkedEmpty()
    ensures Linked([])
  {
  }

  lemma AcknowledgeKeepsLog(h: HexHash, s: State, c: nat, k: nat, e: Entry)
    requires GoodLog(h, s) && c < |s.clients| && k < |s.posts| && k !in s.acked && AllWritable(|s.store.log| + 1)
    requires s.posts[k].entry == e
    ensures GoodLog(h, Acknowledging(h, s, c, k, e))
    ensures Given(Acknowledging(h, s, c, k, e), AnswerOf(Acknowledging(h, s, c, k, e).clients[c].pc))
  {
    hide Honest, HeadAfter, ReceiptHead;
    var t := Acknowledging(h, s, c, k, e);
    AckContinues(h, s.store.log, e);
    forall i | 0 <= i < |t.acked| ensures Acknowledges(t, i) {
      assert i < |s.acked| ==> Acknowledges(s, i);
    }
  }

  lemma AttemptsStand(s: State, t: State)
    requires GoodAttempts(s) && t.store.segments == s.store.segments && t.moves == s.moves
    ensures forall c :: 0 <= c < |s.clients| ==> GoodAttempt(t, s.clients[c])
  {
    forall c | 0 <= c < |s.clients| ensures GoodAttempt(t, s.clients[c]) {
      assert GoodAttempt(s, s.clients[c]);
    }
  }

  lemma LogLength(h: HexHash, s: State)
    requires GoodLog(h, s)
    ensures |s.acked| == |s.store.log|
  {
  }

  lemma AcknowledgeKeepsInv(h: HexHash, s: State, c: nat)
    requires Inv(h, s) && c < |s.clients| && s.clients[c].pc.Held? && AllWritable(|s.store.log| + 1)
    requires AllReadable(s.store.log)
    ensures Inv(h, Acknowledging(h, s, c, s.clients[c].pc.k, s.clients[c].pc.entry))
  {
    hide GoodLog, GoodSegments, Places, GoodAttempt, AllReadable, Given, AckLine;
    SegmentsNonempty(s);
    var k, e := s.clients[c].pc.k, s.clients[c].pc.entry;
    var t := Acknowledging(h, s, c, k, e);
    AcknowledgeKeepsLog(h, s, c, k, e);
    LogLength(h, s);
    AnswersStand(s, t);
    AttemptsStand(s, t);
    FewLosses(s, s.clients[c]);
    AckedIsGood(t, t.clients[c]);
  }

  lemma FewLosses(s: State, cl: Client)
    requires |s.store.segments| > 0 && GoodAttempt(s, cl)
    ensures cl.losses <= 32
  {
  }

  lemma AckedIsGood(s: State, cl: Client)
    requires |s.store.segments| > 0 && cl.pc.Acked? && cl.losses <= 32
    ensures GoodAttempt(s, cl)
  {
  }

  // History only grows, so a receipt once given stays true.
  lemma AnswersStand(s: State, t: State)
    requires GoodAnswers(s) && |s.acked| == |s.store.log| && |t.acked| == |t.store.log|
    requires s.store.log <= t.store.log && s.acked <= t.acked && s.posts <= t.posts
    ensures forall c :: 0 <= c < |s.clients| && s.clients[c].pc.Acked? ==> Given(t, AnswerOf(s.clients[c].pc))
    ensures forall i :: 0 <= i < |s.answers| ==> Given(t, s.answers[i])
  {
    forall i | 0 <= i < |s.answers| ensures Given(t, s.answers[i]) {
      assert Given(s, s.answers[i]);
    }
    forall c | 0 <= c < |s.clients| && s.clients[c].pc.Acked? ensures Given(t, AnswerOf(s.clients[c].pc)) {
      assert Given(s, AnswerOf(s.clients[c].pc));
    }
  }

  lemma StepKeepsInv(h: HexHash, s: State, a: Action)
    requires Inv(h, s) && Do(h, s, a).Some?
    ensures Inv(h, Do(h, s, a).value)
    ensures s.store.log <= Do(h, s, a).value.store.log
  {
    hide GoodLog, GoodHandlers, GoodSegments, Places, Extends, AckLine;
    if a.Rotate? {
      RotateKeepsInv(h, s, a.binding);
    } else {
      var c, cl := a.c, s.clients[a.c];
      assert GoodAttempt(s, cl);
      match a
      case StartCall(_) => TurnKeepsInv(h, s, c, Client(Ready(s.moves), s.moves, 0));
      case ReadHead(_) =>
        var tail := Tail(s.store.Active());
        TurnKeepsInv(h, s, c, cl.(pc := Read(tail.0, tail.1, s.moves)));
      case Build(_, e) =>
        BuildFits(s, cl, e);
        TurnKeepsInv(h, s, c, cl.(pc := Built(e, cl.pc.at)));
      case BringForeign(_, e) => TurnKeepsInv(h, s, c, cl.(pc := Foreign(e)));
      case Post(_) =>
        if cl.pc.Built? {
          var refused := Client(Ready(cl.pc.at), cl.since, cl.losses + 1);
          if Extends(s.store.Active(), cl.pc.entry) {
            PostKeepsInv(h, s, c, cl.pc.entry, refused);
          } else {
            TurnKeepsInv(h, s, c, refused);
          }
        } else if Extends(s.store.Active(), cl.pc.entry) {
          PostKeepsInv(h, s, c, cl.pc.entry, cl.(pc := Idle));
        } else {
          TurnKeepsInv(h, s, c, cl.(pc := Idle));
        }
      case Acknowledge(_) =>
        AcknowledgeKeepsInv(h, s, c);
      case Answer(_) =>
        assert Given(s, AnswerOf(cl.pc));
        TurnKeepsInv(h, s, c, cl.(pc := Idle));
        AnswerKeepsInv(h, s.(clients := Turned(s, c, Idle)), AnswerOf(cl.pc));
      case Retry(_) => TurnKeepsInv(h, s, c, cl.(pc := GaveUp));
      case Crash(_) => TurnKeepsInv(h, s, c, cl.(pc := Idle));
    }
  }

  lemma BuildFits(s: State, cl: Client, e: Entry)
    requires |s.store.segments| > 0 && cl.pc.Read? && GoodAttempt(s, cl)
    requires e.seqNo == cl.pc.next && e.prevHash == cl.pc.prev
    ensures GoodAttempt(s, cl.(pc := Built(e, cl.pc.at)))
  {
  }

  lemma AnswerKeepsInv(h: HexHash, s: State, a: Answered)
    requires Inv(h, s) && Given(s, a)
    ensures Inv(h, s.(answers := s.answers + [a]))
  {
    hide GoodLog, GoodSegments, Places, GoodAttempt, Given;
    var t := s.(answers := s.answers + [a]);
    SegmentsNonempty(s);
    LogStands(h, s, t);
    LogLength(h, s);
    AnswersStand(s, t);
    AttemptsStand(s, t);
    StillGiven(s, t, a);
  }

  lemma StillGiven(s: State, t: State, a: Answered)
    requires Given(s, a) && t.store == s.store && t.acked == s.acked && t.posts == s.posts
    ensures Given(t, a)
  {
  }

  lemma {:induction false} EveryRunKeepsInv(h: HexHash, n: nat, run: seq<Action>)
    requires Exec(h, Initial(n), run).Some?
    ensures Inv(h, Exec(h, Initial(n), run).value)
    decreases |run|
  {
    hide Do;
    if run == [] {
      InitialInv(h, n);
    } else {
      EveryRunKeepsInv(h, n, run[..|run| - 1]);
      StepKeepsInv(h, Exec(h, Initial(n), run[..|run| - 1]).value, run[|run| - 1]);
    }
  }

  // ----- What that says -----

  // Both checkers pass in every reachable state.
  lemma LogsCheckOut(h: HexHash, n: nat, run: seq<Action>)
    requires Exec(h, Initial(n), run).Some?
    ensures var s := Exec(h, Initial(n), run).value;
            && AllWritable(|s.store.log|)
            && NonBlank(s.store.log) == s.store.log && NotJson !in s.store.log
            && HonestLog(h, NonBlank(s.store.log))
            && AllBacked(NonBlank(s.store.log), Stored(s.store.segments))
  {
    EveryRunKeepsInv(h, n, run);
    var s := Exec(h, Initial(n), run).value;
    NothingBlank(s.store.log);
    forall i | 0 <= i < |s.store.log| ensures Backed(s.store.log[i], Stored(s.store.segments)) {
      assert Acknowledges(s, i);
      var k := s.acked[i];
      PlacesAreStored(s.store.segments, k);
      StoredHas(s.store.segments, s.posts[k].segment, s.posts[k].index);
    }
  }

  // So after any run both checkers say OK, about every acknowledgment there was; with none there is no log.
  method AuditRun(h: HexHash, n: nat, run: seq<Action>) returns (own: Report, cross: Report)
    requires Exec(h, Initial(n), run).Some?
    ensures var count := |Exec(h, Initial(n), run).value.store.log|;
            && own.verdict == Ok && cross.verdict == Ok
            && own.checked == cross.checked == if count == 0 then None else Some(count)
  {
    hide Exec, HonestLog, AllBacked, NonBlank, AllWritable;
    LogsCheckOut(h, n, run);
    var store := Exec(h, Initial(n), run).value.store;
    var log := if store.log == [] then None else Some(store.log);
    own := VerifyReceiptLog(h, log);
    cross := CrossCheckReceipts(log, Stored(store.segments));
  }

  lemma {:induction false} NothingBlank(log: seq<LogLine>)
    requires AllReadable(log)
    ensures NonBlank(log) == log
    decreases |log|
  {
    if log != [] {
      NothingBlank(log[..|log| - 1]);
      assert Readable(log[|log| - 1]);
    }
  }

  lemma {:induction false} StoredHas(segments: seq<seq<Entry>>, s: nat, i: nat)
    requires s < |segments| && i < |segments[s]|
    ensures segments[s][i] in Stored(segments)
    decreases |segments|
  {
    if s < |segments| - 1 {
      StoredHas(segments[..|segments| - 1], s, i);
    }
  }

  // Each segment is contiguous from zero and linked; the entries stored, bindings apart, are exactly the
  // successful POSTs in order, each once, at the seq it was posted with.
  lemma NoFork(h: HexHash, n: nat, run: seq<Action>)
    requires Exec(h, Initial(n), run).Some?
    ensures var s := Exec(h, Initial(n), run).value;
            && (forall i :: 0 <= i < |s.store.segments| ==> Linked(s.store.segments[i]))
            && s.posts == Places(s.store.segments)
            && forall k :: 0 <= k < |s.posts| ==> s.posts[k].index == s.posts[k].entry.seqNo
  {
    EveryRunKeepsInv(h, n, run);
    var s := Exec(h, Initial(n), run).value;
    forall k | 0 <= k < |s.posts| ensures s.posts[k].index == s.posts[k].entry.seqNo {
      PlacesAreStored(s.store.segments, k);
      LinkedSeqNos(s.store.segments[s.posts[k].segment], s.posts[k].index);
    }
  }

  // Distinct log lines acknowledge distinct stored entries.
  lemma ReceiptsNameDistinctEntries(h: HexHash, n: nat, run: seq<Action>, i: nat, j: nat)
    requires Exec(h, Initial(n), run).Some?
    requires i < j < |Exec(h, Initial(n), run).value.store.log|
    ensures var s := Exec(h, Initial(n), run).value;
            && |s.acked| == |s.store.log| && s.acked[i] < |s.posts| && s.acked[j] < |s.posts|
            && Acknowledges(s, i) && Acknowledges(s, j)
            && (s.posts[s.acked[i]].segment, s.posts[s.acked[i]].index) != (s.posts[s.acked[j]].segment, s.posts[s.acked[j]].index)
  {
    EveryRunKeepsInv(h, n, run);
    var s := Exec(h, Initial(n), run).value;
    assert Acknowledges(s, i) && Acknowledges(s, j) && s.acked[i] != s.acked[j];
    PlacesAreStored(s.store.segments, s.acked[i]);
  }

  // Every answer is for the stored entry of its own POST: the log line under the receipt's number
  // acknowledges that POST, carries its seq and hash, and has the head that was answered.
  lemma AnswersAreTheirs(h: HexHash, n: nat, run: seq<Action>, i: nat)
    requires Exec(h, Initial(n), run).Some? && i < |Exec(h, Initial(n), run).value.answers|
    ensures var s := Exec(h, Initial(n), run).value;
            var a := s.answers[i];
            && a.k < |s.posts| && s.posts[a.k].entry == a.entry && s.posts[a.k] in Places(s.store.segments)
            && a.receiptSeq < |s.store.log| == |s.acked| && s.acked[a.receiptSeq] == a.k
            && s.store.log[a.receiptSeq] ==
               Versioned(1, Fields(Some(a.entry.seqNo), Some(a.entry.entryHash), Some(a.receiptSeq), Some(a.head)))
  {
    EveryRunKeepsInv(h, n, run);
    var s := Exec(h, Initial(n), run).value;
    assert Given(s, s.answers[i]);
  }

  // So receipts of two POSTs never carry one number.
  lemma ReceiptsDiffer(h: HexHash, n: nat, run: seq<Action>, i: nat, j: nat)
    requires Exec(h, Initial(n), run).Some?
    requires var s := Exec(h, Initial(n), run).value;
             i < |s.answers| && j < |s.answers| && s.answers[i].k != s.answers[j].k
    ensures var s := Exec(h, Initial(n), run).value;
            s.answers[i].receiptSeq != s.answers[j].receiptSeq
  {
    AnswersAreTheirs(h, n, run, i);
    AnswersAreTheirs(h, n, run, j);
  }

  // No receipt_seq is ever answered with two heads.
  lemma OneHeadPerReceipt(h: HexHash, n: nat, run: seq<Action>, i: nat, j: nat)
    requires Exec(h, Initial(n), run).Some?
    requires var s := Exec(h, Initial(n), run).value;
             i < |s.answers| && j < |s.answers| && s.answers[i].receiptSeq == s.answers[j].receiptSeq
    ensures var s := Exec(h, Initial(n), run).value;
            s.answers[i] == s.answers[j]
  {
    AnswersAreTheirs(h, n, run, i);
    AnswersAreTheirs(h, n, run, j);
  }

  // A 409 for a built entry means that the tail moved after that attempt's head was read.
  lemma RefusalMeansMove(h: HexHash, n: nat, run: seq<Action>, c: nat)
    requires Exec(h, Initial(n), run).Some?
    requires var s := Exec(h, Initial(n), run).value;
             c < |s.clients| && s.clients[c].pc.Built? && |s.store.segments| > 0 && !Extends(s.store.Active(), s.clients[c].pc.entry)
    ensures Exec(h, Initial(n), run).value.clients[c].pc.at < Exec(h, Initial(n), run).value.moves
  {
    EveryRunKeepsInv(h, n, run);
    var s := Exec(h, Initial(n), run).value;
    assert GoodAttempt(s, s.clients[c]);
  }

  // A client that gave up saw the tail move at least once for each of its 32 losses; a move is a
  // successful POST or a rotation.
  lemma GivingUpMeansContention(h: HexHash, n: nat, run: seq<Action>, c: nat)
    requires Exec(h, Initial(n), run).Some?
    requires var s := Exec(h, Initial(n), run).value;
             c < |s.clients| && s.clients[c].pc.GaveUp?
    ensures var s := Exec(h, Initial(n), run).value;
            && s.moves >= s.clients[c].since + 32
            && s.moves == |s.posts| + |s.store.segments| - 1
  {
    EveryRunKeepsInv(h, n, run);
    var s := Exec(h, Initial(n), run).value;
    assert GoodAttempt(s, s.clients[c]);
  }

  // A call loses at most 32 races, and has fewer behind it whenever it attempts again.
  lemma {:induction false} AtMost32(h: HexHash, n: nat, run: seq<Action>, c: nat)
    requires Exec(h, Initial(n), run).Some? && c < |Exec(h, Initial(n), run).value.clients|
    ensures var cl := Exec(h, Initial(n), run).value.clients[c];
            && cl.losses <= 32 && (cl.pc.Read? || cl.pc.Built? ==> cl.losses < 32) && (cl.pc.GaveUp? ==> cl.losses == 32)
  {
    EveryRunKeepsInv(h, n, run);
    var s := Exec(h, Initial(n), run).value;
    assert GoodAttempt(s, s.clients[c]);
  }

  lemma {:induction false} ExecAppend(h: HexHash, s: State, a: seq<Action>, b: seq<Action>)
    ensures Exec(h, s, a + b) == if Exec(h, s, a).None? then None else Exec(h, Exec(h, s, a).value, b)
    decreases |b|
  {
    hide Do;
    if b == [] {
      assert a + b == a;
    } else {
      assert (a + b)[..|a + b| - 1] == a + b[..|b| - 1];
      ExecAppend(h, s, a, b[..|b| - 1]);
    }
  }

  lemma {:induction false} SinceStands(h: HexHash, s: State, run: seq<Action>, c: nat)
    requires c < |s.clients| && StartCall(c) !in run && Exec(h, s, run).Some?
    ensures |Exec(h, s, run).value.clients| == |s.clients| && Exec(h, s, run).value.clients[c].since == s.clients[c].since
    decreases |run|
  {
    hide Do;
    if run != [] {
      var init, last := run[..|run| - 1], run[|run| - 1];
      assert StartCall(c) !in init && last in run;
      SinceStands(h, s, init, c);
      SinceStep(h, Exec(h, s, init).value, last, c);
    }
  }

  lemma SinceStep(h: HexHash, s: State, a: Action, c: nat)
    requires c < |s.clients| && a != StartCall(c) && Do(h, s, a).Some?
    ensures |Do(h, s, a).value.clients| == |s.clients| && Do(h, s, a).value.clients[c].since == s.clients[c].since
  {
    hide AckLine, Extends;
  }

  // Between the start of a call that gives up and its end the tail moved at least 32 times.
  lemma GivingUpAfterStart(h: HexHash, n: nat, before: seq<Action>, c: nat, after: seq<Action>)
    requires Exec(h, Initial(n), before + [StartCall(c)] + after).Some? && StartCall(c) !in after
    requires var s := Exec(h, Initial(n), before + [StartCall(c)] + after).value;
             c < |s.clients| && s.clients[c].pc.GaveUp?
    ensures Exec(h, Initial(n), before).Some?
    ensures Exec(h, Initial(n), before + [StartCall(c)] + after).value.moves >= Exec(h, Initial(n), before).value.moves + 32
  {
    hide Inv;
    var run := before + [StartCall(c)] + after;
    ExecAppend(h, Initial(n), before + [StartCall(c)], after);
    ExecAppend(h, Initial(n), before, [StartCall(c)]);
    var s := Exec(h, Initial(n), before).value;
    assert [StartCall(c)][..0] == [];
    assert Exec(h, s, [StartCall(c)]) == Do(h, s, StartCall(c));
    SinceStands(h, Do(h, s, StartCall(c)).value, after, c);
    GivingUpMeansContention(h, n, run, c);
  }
}
