/**
 * The client and a server on one bus.  The server answers each request with a frame that waits in
 * `inbox` until the schedule delivers it; before, between and after, the schedule may put other
 * frames on the bus or let the client find the bus empty.
 */
module Transfers {
  import opened Bytes
  import opened Wrappers
  import opened Segmentation
  import opened Client
  import opened Traces
  import opened Server
  import opened Runs
  import Address

  datatype World = World(result: LoopResult, st: IndexState, timer: int, server: SdoServer, inbox: seq<Frame>)

  /**
   * A move of the schedule: the first waiting reply is delivered, another frame comes in, or the client
   * finds the bus empty.  `taken` tells whether the bus takes the answer a frame draws, if it draws one.
   */
  datatype Move =
    | Deliver(now: int, taken: bool)
    | Foreign(frame: Frame, now: int, taken: bool)
    | Tick(now: int)

  /** The COB-ID of a node's server. */
  function ReplyId(node: nat): nat {
    0x580 + node % 128
  }

  /** Requests reach the server; its replies join the inbox. */
  function Exchanged(w: World, sent: seq<Frame>): World
    decreases |sent|
  {
    if sent == [] then w
    else
      var s := Serve(w.server, sent[0].data);
      var replies: seq<Frame> := if s.reply.None? then [] else [CanFrame(ReplyId(w.st.node), s.reply.value)];
      Exchanged(w.(server := s.server, inbox := w.inbox + replies), sent[1..])
  }

  /** The client spends one pass on `e`. */
  function Step(w: World, limit: nat, e: Event): World {
    var p := OnePass(w.st, w.timer, limit, e);
    Exchanged(w.(result := p.result, st := p.st, timer := p.timer), p.sent)
  }

  /** The bus event of a move; delivering from an empty inbox is none. */
  function EventOf(w: World, m: Move): Option<Event> {
    match m
    case Deliver(now, taken) => if w.inbox == [] then None else Some(Received(w.inbox[0], taken, now))
    case Foreign(f, now, taken) => Some(Received(f, taken, now))
    case Tick(now) => Some(Idle(now))
  }

  function Next(w: World, limit: nat, m: Move): World {
    if w.result != Waiting || EventOf(w, m).None? then w
    else if m.Deliver? then Step(w.(inbox := w.inbox[1..]), limit, EventOf(w, m).value)
    else Step(w, limit, EventOf(w, m).value)
  }

  function Bus(limit: nat): (World, Move) -> World {
    (w, m) => Next(w, limit, m)
  }

  /** The bus at the end of a schedule. */
  function Play(w: World, limit: nat, moves: seq<Move>): World {
    Fold(Bus(limit), w, moves)
  }

  /** The trace the client's loop goes through when the schedule is played. */
  function TraceOf(w: World, limit: nat, moves: seq<Move>): seq<Event>
    decreases |moves|
  {
    if moves == [] || w.result != Waiting then []
    else
      var rest := TraceOf(Next(w, limit, moves[0]), limit, moves[1..]);
      match EventOf(w, moves[0])
      case None => rest
      case Some(e) => [e] + rest
  }

  lemma {:induction false} ExchangedKeepsClient(w: World, sent: seq<Frame>)
    ensures var v := Exchanged(w, sent); v.result == w.result && v.st == w.st && v.timer == w.timer
    decreases |sent|
  {
    if sent != [] {
      var s := Serve(w.server, sent[0].data);
      var replies: seq<Frame> := if s.reply.None? then [] else [CanFrame(ReplyId(w.st.node), s.reply.value)];
      ExchangedKeepsClient(w.(server := s.server, inbox := w.inbox + replies), sent[1..]);
    }
  }

  lemma {:induction false} FinishedStays(w: World, limit: nat, moves: seq<Move>)
    requires w.result != Waiting
    ensures Play(w, limit, moves) == w
    decreases |moves|
  {
    if moves != [] {
      assert Bus(limit)(w, moves[0]) == w;
      FinishedStays(w, limit, moves[1..]);
    }
  }

  /** Playing a schedule is running the client's loop over the trace it produces. */
  lemma {:induction false} PlayIsLoop(w: World, limit: nat, moves: seq<Move>)
    requires w.result == Waiting
    ensures var r := Loop(w.st, w.timer, limit, TraceOf(w, limit, moves));
            var v := Play(w, limit, moves);
            && r.result == v.result && r.st == v.st && r.timer == v.timer
            && r.consumed == |TraceOf(w, limit, moves)|
    decreases |moves|
  {
    if moves != [] {
      var next := Next(w, limit, moves[0]);
      assert Bus(limit)(w, moves[0]) == next;
      var e := EventOf(w, moves[0]);
      var rest := TraceOf(next, limit, moves[1..]);
      if e.Some? {
        var p := OnePass(w.st, w.timer, limit, e.value);
        var from := if moves[0].Deliver? then w.(inbox := w.inbox[1..]) else w;
        ExchangedKeepsClient(from.(result := p.result, st := p.st, timer := p.timer), p.sent);
        assert TraceOf(w, limit, moves) == [e.value] + rest;
        assert ([e.value] + rest)[1..] == rest;
      }
      if next.result == Waiting {
        PlayIsLoop(next, limit, moves[1..]);
      } else {
        FinishedStays(next, limit, moves[1..]);
        assert rest == [];
      }
    }
  }

  /**
   * The bus takes answers to replies, another frame does not concern a transaction with the client's
   * node, a tick keeps the limit.
   */
  predicate BenignMove(w: World, limit: nat, m: Move) {
    w.result == Waiting ==>
      match m
      case Deliver(_, taken) => taken
      case Foreign(f, _, _) => IsNoise(f, w.st.node)
      case Tick(now) => !Expired(now - w.timer, limit)
  }

  function Manners(limit: nat): (World, Move) -> bool {
    (w, m) => BenignMove(w, limit, m)
  }

  predicate Benign(w: World, limit: nat, moves: seq<Move>) {
    Along(Bus(limit), Manners(limit), w, moves)
  }

  function Delivered(m: Move): nat {
    if m.Deliver? then 1 else 0
  }

  /** The number of deliveries in a schedule. */
  function Deliveries(moves: seq<Move>): nat {
    Total(Delivered, moves)
  }

  /** The bus after a request was accepted and answered; `late` frames were on their way before that. */
  function Opened(st: IndexState, request: Frame, server: SdoServer, start: int, late: seq<Frame>): World {
    Exchanged(World(Waiting, st, start, server, late), [request])
  }

  /**
   * One call on the bus: whether its request is accepted, when its timer starts, which frames left
   * over from earlier traffic arrive after the bus was drained, and the schedule.
   */
  datatype Session = Session(requestOk: bool, start: int, late: seq<Frame>, moves: seq<Move>)

  function OpenedBy(st: IndexState, request: Frame, server: SdoServer, x: Session): World {
    Opened(st, request, server, x.start, x.late)
  }

  /** The bus at the end of a session. */
  function Outcome(st: IndexState, request: Frame, limit: nat, server: SdoServer, x: Session): World {
    if x.requestOk then Play(OpenedBy(st, request, server, x), limit, x.moves)
    else World(Failed, st, x.start, server, x.late)
  }

  /** What the client sees of a session. */
  function Seen(st: IndexState, request: Frame, limit: nat, server: SdoServer, x: Session): Exchange {
    Exchange([], x.requestOk, x.start, TraceOf(OpenedBy(st, request, server, x), limit, x.moves))
  }

  /** A session is the client's transaction on what it sees. */
  lemma OutcomeIsTransaction(st: IndexState, request: Frame, limit: nat, server: SdoServer, x: Session)
    ensures var r := Transact(st, request, limit, Seen(st, request, limit, server, x));
            var v := Outcome(st, request, limit, server, x);
            r.result == v.result && r.st == v.st
    ensures var w := OpenedBy(st, request, server, x);
            w.result == Waiting && w.st == st && w.timer == x.start
  {
    ExchangedKeepsClient(World(Waiting, st, x.start, server, x.late), [request]);
    PlayIsLoop(OpenedBy(st, request, server, x), limit, x.moves);
  }

  /** An exchange shows the client what happens in a session; what was drained before does not matter. */
  predicate Shows(e: Exchange, st: IndexState, request: Frame, limit: nat, server: SdoServer, x: Session) {
    && e.requestOk == x.requestOk && e.start == x.start
    && e.events == Seen(st, request, limit, server, x).events
  }

  lemma ShownOutcome(e: Exchange, st: IndexState, request: Frame, limit: nat, server: SdoServer, x: Session)
    requires Shows(e, st, request, limit, server, x)
    ensures var r := Transact(st, request, limit, e);
            var v := Outcome(st, request, limit, server, x);
            r.result == v.result && r.st == v.st
  {
    OutcomeIsTransaction(st, request, limit, server, x);
  }

  /** The request is accepted, late frames do not concern the node, and the schedule is benign. */
  predicate Undisturbed(st: IndexState, request: Frame, limit: nat, server: SdoServer, x: Session) {
    && x.requestOk
    && (forall f :: f in x.late ==> IsNoise(f, st.node))
    && Benign(OpenedBy(st, request, server, x), limit, x.moves)
  }

  lemma {:induction false} ExchangedAfter(w: World, before: seq<Frame>, sent: seq<Frame>)
    ensures var v := Exchanged(w, sent);
            Exchanged(w.(inbox := before + w.inbox), sent) == v.(inbox := before + v.inbox)
    decreases |sent|
  {
    if sent != [] {
      var s := Serve(w.server, sent[0].data);
      var replies: seq<Frame> := if s.reply.None? then [] else [CanFrame(ReplyId(w.st.node), s.reply.value)];
      assert before + w.inbox + replies == before + (w.inbox + replies);
      ExchangedAfter(w.(server := s.server, inbox := w.inbox + replies), before, sent[1..]);
    }
  }

  /** A schedule in which the delivery of late frames is written as foreign traffic. */
  function Relabelled(late: seq<Frame>, moves: seq<Move>): seq<Move>
    decreases |moves|
  {
    if late == [] || moves == [] then moves
    else if moves[0].Deliver? then [Foreign(late[0], moves[0].now, moves[0].taken)] + Relabelled(late[1..], moves[1..])
    else [moves[0]] + Relabelled(late, moves[1..])
  }

  /** One move with late frames in front of the inbox, and the same move relabelled. */
  lemma LateMove(w: World, limit: nat, late: seq<Frame>, m: Move)
    requires late != []
    ensures var m' := if m.Deliver? then Foreign(late[0], m.now, m.taken) else m;
            var late' := if m.Deliver? && w.result == Waiting then late[1..] else late;
            var u := Next(w, limit, m');
            && EventOf(w, m') == EventOf(w.(inbox := late + w.inbox), m)
            && Next(w.(inbox := late + w.inbox), limit, m) == u.(inbox := late' + u.inbox)
  {
    assert (late + w.inbox)[1..] == late[1..] + w.inbox;
    var m' := if m.Deliver? then Foreign(late[0], m.now, m.taken) else m;
    var late' := if m.Deliver? then late[1..] else late;
    var p := OnePass(w.st, w.timer, limit, EventOf(w, m').value);
    ExchangedAfter(w.(result := p.result, st := p.st, timer := p.timer), late', p.sent);
  }

  /** What is left of `n` after `m`. */
  function Beyond(n: nat, m: nat): nat {
    if n <= m then 0 else n - m
  }

  /** The deliveries of a session that are not late frames. */
  function Own(x: Session): nat {
    Beyond(Deliveries(x.moves), |x.late|)
  }

  /** Late frames are nothing but foreign frames: the client cannot tell. */
  lemma {:induction false} LateIsForeign(w: World, limit: nat, late: seq<Frame>, moves: seq<Move>)
    ensures var v := Play(w.(inbox := late + w.inbox), limit, moves);
            v == Play(w, limit, Relabelled(late, moves)).(inbox := v.inbox)
    ensures TraceOf(w.(inbox := late + w.inbox), limit, moves) == TraceOf(w, limit, Relabelled(late, moves))
    decreases |moves|
  {
    if late == [] {
      assert late + w.inbox == w.inbox;
    } else if w.result != Waiting {
      FinishedStays(w, limit, Relabelled(late, moves));
      FinishedStays(w.(inbox := late + w.inbox), limit, moves);
    } else if moves != [] {
      var m := moves[0];
      var m' := if m.Deliver? then Foreign(late[0], m.now, m.taken) else m;
      var late' := if m.Deliver? then late[1..] else late;
      LateMove(w, limit, late, m);
      assert Bus(limit)(w.(inbox := late + w.inbox), m) == Next(w.(inbox := late + w.inbox), limit, m);
      assert Bus(limit)(w, m') == Next(w, limit, m');
      LateIsForeign(Next(w, limit, m'), limit, late', moves[1..]);
      assert Relabelled(late, moves) == [m'] + Relabelled(late', moves[1..]);
      assert Relabelled(late, moves)[1..] == Relabelled(late', moves[1..]);
    }
  }

  lemma {:induction false} RelabelledDeliveries(late: seq<Frame>, moves: seq<Move>)
    ensures Deliveries(Relabelled(late, moves)) == Beyond(Deliveries(moves), |late|)
    decreases |moves|
  {
    if late != [] && moves != [] {
      var m := moves[0];
      var m' := if m.Deliver? then Foreign(late[0], m.now, m.taken) else m;
      var late' := if m.Deliver? then late[1..] else late;
      RelabelledDeliveries(late', moves[1..]);
      assert Relabelled(late, moves) == [m'] + Relabelled(late', moves[1..]);
      assert Relabelled(late, moves)[1..] == Relabelled(late', moves[1..]);
    }
  }

  lemma {:induction false} FinishedIsBenign(w: World, limit: nat, moves: seq<Move>)
    requires w.result != Waiting
    ensures Benign(w, limit, moves)
    decreases |moves|
  {
    if moves != [] {
      assert Bus(limit)(w, moves[0]) == w && Manners(limit)(w, moves[0]);
      FinishedIsBenign(w, limit, moves[1..]);
    }
  }

  lemma BenignSplits(w: World, limit: nat, moves: seq<Move>)
    requires Benign(w, limit, moves) && moves != []
    ensures BenignMove(w, limit, moves[0]) && Benign(Next(w, limit, moves[0]), limit, moves[1..])
  {
    assert Manners(limit)(w, moves[0]);
    assert Bus(limit)(w, moves[0]) == Next(w, limit, moves[0]);
  }

  lemma NextKeepsNode(w: World, limit: nat, m: Move)
    ensures Next(w, limit, m).st.node == w.st.node
  {
    if w.result == Waiting && EventOf(w, m).Some? {
      var e := EventOf(w, m).value;
      PassKeeps(w.st, w.timer, limit, e);
      var p := OnePass(w.st, w.timer, limit, e);
      var from := if m.Deliver? then w.(inbox := w.inbox[1..]) else w;
      ExchangedKeepsClient(from.(result := p.result, st := p.st, timer := p.timer), p.sent);
    }
  }

  lemma {:induction false} RelabelledIsBenign(w: World, limit: nat, late: seq<Frame>, moves: seq<Move>)
    requires forall f :: f in late ==> IsNoise(f, w.st.node)
    requires Benign(w.(inbox := late + w.inbox), limit, moves)
    ensures Benign(w, limit, Relabelled(late, moves))
    decreases |moves|
  {
    if late == [] {
      assert late + w.inbox == w.inbox;
    } else if w.result != Waiting {
      FinishedIsBenign(w, limit, Relabelled(late, moves));
    } else if moves != [] {
      var m := moves[0];
      var m' := if m.Deliver? then Foreign(late[0], m.now, m.taken) else m;
      var late' := if m.Deliver? then late[1..] else late;
      LateMove(w, limit, late, m);
      BenignSplits(w.(inbox := late + w.inbox), limit, moves);
      NextKeepsNode(w, limit, m');
      assert Bus(limit)(w, m') == Next(w, limit, m') && Manners(limit)(w, m');
      RelabelledIsBenign(Next(w, limit, m'), limit, late', moves[1..]);
      assert Relabelled(late, moves) == [m'] + Relabelled(late', moves[1..]);
      assert Relabelled(late, moves)[1..] == Relabelled(late', moves[1..]);
    }
  }

  lemma LateInFront(st: IndexState, request: Frame, server: SdoServer, x: Session)
    ensures var w := Opened(st, request, server, x.start, []);
            OpenedBy(st, request, server, x) == w.(inbox := x.late + w.inbox)
    ensures Opened(st, request, server, x.start, []).st == st
  {
    var w := World(Waiting, st, x.start, server, []);
    assert x.late + [] == x.late;
    ExchangedAfter(w, x.late, [request]);
    ExchangedKeepsClient(w, [request]);
  }

  /** An undisturbed session ends as one without late frames does, with so many deliveries fewer. */
  lemma WithoutLate(st: IndexState, request: Frame, limit: nat, server: SdoServer, x: Session)
    requires Undisturbed(st, request, limit, server, x)
    ensures var w := Opened(st, request, server, x.start, []);
            var moves := Relabelled(x.late, x.moves);
            var v := Outcome(st, request, limit, server, x);
            && Benign(w, limit, moves)
            && v == Play(w, limit, moves).(inbox := v.inbox)
            && Deliveries(moves) == Own(x)
  {
    var w := Opened(st, request, server, x.start, []);
    LateInFront(st, request, server, x);
    LateIsForeign(w, limit, x.late, x.moves);
    RelabelledIsBenign(w, limit, x.late, x.moves);
    RelabelledDeliveries(x.late, x.moves);
  }

  /** The client has an answer to the frame. */
  predicate Draws(st: IndexState, f: Frame) {
    Process(st, f, true).class_ == RestartTimer
  }

  /** The bus refuses the answer to a frame that is delivered. */
  predicate Refused(w: World, m: Move) {
    m.Deliver? && !m.taken && w.inbox != [] && Draws(w.st, w.inbox[0])
  }

  /** How many frames of the inbox are delivered while the client waits, before an answer is refused. */
  function Heard(w: World, limit: nat, moves: seq<Move>): nat
    decreases |moves|
  {
    if moves == [] || w.result != Waiting || Refused(w, moves[0]) then 0
    else Delivered(moves[0]) + Heard(Next(w, limit, moves[0]), limit, moves[1..])
  }

  /** The event that ended the call. */
  function EndedBy(w: World, limit: nat, moves: seq<Move>): Option<Event>
    decreases |moves|
  {
    if moves == [] || w.result != Waiting then None
    else if Next(w, limit, moves[0]).result != Waiting then EventOf(w, moves[0])
    else EndedBy(Next(w, limit, moves[0]), limit, moves[1..])
  }

  /** Noise and ticks within the limit leave the world as it is. */
  lemma QuietMove(w: World, limit: nat, m: Move)
    requires !m.Deliver? && BenignMove(w, limit, m)
    ensures Next(w, limit, m) == w
  {
    if m.Foreign? {
      BusyIsNoise(w.st, m.frame, m.taken);
    }
  }

  /** While no reply comes in, nothing is sent and nothing ends. */
  lemma {:induction false} QuietPlay(w: World, limit: nat, moves: seq<Move>)
    requires w.result == Waiting && Benign(w, limit, moves) && Deliveries(moves) == 0
    ensures var r := Loop(w.st, w.timer, limit, TraceOf(w, limit, moves)); r.result == Waiting && r.sent == []
    decreases |moves|
  {
    if moves != [] {
      BenignSplits(w, limit, moves);
      QuietMove(w, limit, moves[0]);
      QuietPlay(w, limit, moves[1..]);
      var e := EventOf(w, moves[0]).value;
      var rest := TraceOf(w, limit, moves[1..]);
      assert ([e] + rest)[1..] == rest;
      if e.Received? {
        BusyIsNoise(w.st, e.frame, e.writeOk);
      }
    }
  }

  /** The first late frame that is no noise ends the call or draws an answer. */
  lemma {:induction false} Disturbed(w: World, limit: nat, late: seq<Frame>, now: int) returns (moves: seq<Move>)
    requires w.result == Waiting && exists f :: f in late && !IsNoise(f, w.st.node)
    ensures Benign(w.(inbox := late + w.inbox), limit, moves) && Deliveries(moves) <= |late|
    ensures var r := Loop(w.st, w.timer, limit, TraceOf(w.(inbox := late + w.inbox), limit, moves));
            r.result != Waiting || r.sent != []
    decreases |late|
  {
    var u := w.(inbox := late + w.inbox);
    var m := Deliver(now, true);
    var e := Received(late[0], true, now);
    LateMove(w, limit, late, m);
    assert Bus(limit)(u, m) == Next(u, limit, m) && Manners(limit)(u, m);
    BusyIsNoise(w.st, late[0], true);
    if IsNoise(late[0], w.st.node) {
      QuietMove(w, limit, Foreign(late[0], now, true));
      var rest := Disturbed(w, limit, late[1..], now);
      moves := [m] + rest;
      assert moves[1..] == rest;
      var tail := TraceOf(Next(u, limit, m), limit, rest);
      assert ([e] + tail)[1..] == tail;
    } else {
      moves := [m];
      assert moves[1..] == [] && Along(Bus(limit), Manners(limit), Next(u, limit, m), []);
      assert TraceOf(u, limit, moves) == [e] + TraceOf(Next(u, limit, m), limit, []);
      assert Total(Delivered, []) == 0;
      DisturbedPass(w, limit, e, TraceOf(Next(u, limit, m), limit, []));
    }
  }

  lemma DisturbedPass(w: World, limit: nat, e: Event, rest: seq<Event>)
    requires e.Received? && e.writeOk && !IsNoise(e.frame, w.st.node)
    ensures var r := Loop(w.st, w.timer, limit, [e] + rest); r.result != Waiting || r.sent != []
  {
    BusyIsNoise(w.st, e.frame, true);
    ProcessKeeps(w.st, e.frame, true);
    assert ([e] + rest)[0] == e;
  }

  /** Under no benign schedule do the late frames end the call or draw an answer. */
  ghost predicate OwnReplyOnly(st: IndexState, request: Frame, limit: nat, server: SdoServer,
                               start: int, late: seq<Frame>) {
    forall moves | Benign(Opened(st, request, server, start, late), limit, moves) && Deliveries(moves) <= |late| ::
      var r := Transact(st, request, limit, Seen(st, request, limit, server, Session(true, start, late, moves)));
      r.result == Waiting && r.sent == [request]
  }

  /**
   * Replies are not matched with requests: a call, read or write, of a number or a string, is left
   * alone by the frames still on their way exactly when every one of them is noise for the node.
   */
  lemma LateFrames(st: IndexState, request: Frame, limit: nat, server: SdoServer, start: int, late: seq<Frame>)
    ensures OwnReplyOnly(st, request, limit, server, start, late) <==> forall f :: f in late ==> IsNoise(f, st.node)
  {
    var w := Opened(st, request, server, start, []);
    var x := Session(true, start, late, []);
    LateInFront(st, request, server, x);
    OutcomeIsTransaction(st, request, limit, server, x.(late := []));
    if f :| f in late && !IsNoise(f, st.node) {
      var moves := Disturbed(w, limit, late, start);
      var r := Loop(st, start, limit, TraceOf(w.(inbox := late + w.inbox), limit, moves));
      assert |[request] + r.sent| == 1 + |r.sent|;
      assert !OwnReplyOnly(st, request, limit, server, start, late);
    } else {
      forall moves | Benign(Opened(st, request, server, start, late), limit, moves) && Deliveries(moves) <= |late|
        ensures var r := Transact(st, request, limit, Seen(st, request, limit, server, x.(moves := moves)));
                r.result == Waiting && r.sent == [request]
      {
        RelabelledIsBenign(w, limit, late, moves);
        RelabelledDeliveries(late, moves);
        LateIsForeign(w, limit, late, moves);
        QuietPlay(w, limit, Relabelled(late, moves));
      }
    }
  }

  /** A delivery hands the first waiting reply to the client. */
  lemma DeliverMove(w: World, limit: nat, m: Move)
    requires m.Deliver? && m.taken && w.result == Waiting && |w.inbox| == 1
    ensures var p := OnePass(w.st, w.timer, limit, Received(w.inbox[0], true, m.now));
            Next(w, limit, m) == Exchanged(World(p.result, p.st, p.timer, w.server, []), p.sent)
  {
    assert w.inbox[1..] == [];
  }

  /** The dictionary key a server reads from the requests for an index object. */
  function KeyOf(st: IndexState): Key {
    (st.index % 0x1_0000, st.subindex % 0x100)
  }

  lemma KeyOfRequest(st: IndexState, command: byte, word: nat)
    ensures Address.Unpacked(Request(st, command, word).data) == KeyOf(st)
    ensures Request(st, command, word).data[0] == command
    ensures Request(st, command, word).data[4..] == Word4(word)
    ensures word < WORD ==> LittleEndian(Request(st, command, word).data[4..]) == word
  {
    RequestReads(st, command, word);
  }

  lemma OneExchange(w: World, f: Frame)
    requires w.inbox == [] && Serve(w.server, f.data).reply.Some?
    ensures var s := Serve(w.server, f.data);
            Exchanged(w, [f]) == w.(server := s.server, inbox := [CanFrame(ReplyId(w.st.node), s.reply.value)])
  {
    var s := Serve(w.server, f.data);
    var reply: Frame := CanFrame(ReplyId(w.st.node), s.reply.value);
    assert [] + [reply] == [reply];
    assert Exchanged(w, [f]) == Exchanged(w.(server := s.server, inbox := [reply]), [f][1..]);
  }

  /** Frames of other transactions, and boot-up and heartbeat frames of any node. */
  predicate Bystander(f: Frame, node: nat) {
    IsNoise(f, node) || f.id > 0x700
  }

  predicate Bystanders(late: seq<Frame>, moves: seq<Move>, node: nat) {
    && (forall f :: f in late ==> Bystander(f, node))
    && forall m :: m in moves && m.Foreign? ==> Bystander(m.frame, node)
  }

  /** A boot-up or heartbeat frame, or a frame whose answer the bus refuses. */
  predicate CutByFrame(ended: Option<Event>) {
    ended.Some? && ended.value.Received? && (ended.value.frame.id > 0x700 || !ended.value.writeOk)
  }

  /**
   * How a call ends that was cut short, or that still waits: a tick fails it; a boot-up or heartbeat
   * frame, and a reply whose answer the bus refuses, end it with success.
   */
  predicate CutBy(ended: Option<Event>, result: LoopResult) {
    match ended
    case None => result == Waiting
    case Some(Idle(_)) => result == Failed
    case Some(Received(_, _, _)) => Succeeds(result) && CutByFrame(ended)
  }

  /** A move that is neither benign nor the delivery of a reply ends the call where it stands. */
  lemma CuttingMove(w: World, limit: nat, m: Move)
    requires w.result == Waiting && !m.Deliver? && !BenignMove(w, limit, m)
    requires m.Foreign? ==> Bystander(m.frame, w.st.node)
    ensures Next(w, limit, m) == w.(result := Next(w, limit, m).result)
    ensures Next(w, limit, m).result != Waiting && CutBy(EventOf(w, m), Next(w, limit, m).result)
  {
  }

  /** A frame that draws no answer is taken alike on any bus. */
  lemma NothingRefused(w: World, limit: nat, m: Move)
    requires m.Deliver? && !Refused(w, m)
    ensures Next(w, limit, m) == Next(w, limit, Deliver(m.now, true))
  {
  }

  /** A refused answer leaves server and value alone; the call ends with success, or goes on waiting. */
  lemma RefusedMove(w: World, limit: nat, m: Move)
    requires w.result == Waiting && Refused(w, m)
    ensures var n := Next(w, limit, m);
            && n.server == w.server && n.inbox == w.inbox[1..] && n.st.value == w.st.value
            && n.st.node == w.st.node && n.result in {Waiting, Completed}
  {
    ProcessKeeps(w.st, w.inbox[0], false);
  }

  /** What a call makes of a refused answer: after an initiate upload response it waits on, else it ends. */
  lemma RefusalEnds(w: World, limit: nat, m: Move)
    requires w.result == Waiting && Refused(w, m)
    ensures Next(w, limit, m).result ==
            if RouteOf(w.inbox[0].data[0], w.st.dataType) == Segmented(Busy) then Waiting else Completed
  {
    ProcessKeeps(w.st, w.inbox[0], false);
  }

  lemma {:induction false} PlayInTurn(w: World, limit: nat, a: seq<Move>, b: seq<Move>)
    ensures Play(w, limit, a + b) == Play(Play(w, limit, a), limit, b)
    decreases |a|
  {
    if a == [] {
      assert a + b == b;
    } else {
      assert (a + b)[1..] == a[1..] + b;
      PlayInTurn(Next(w, limit, a[0]), limit, a[1..], b);
      assert Bus(limit)(w, a[0]) == Next(w, limit, a[0]);
    }
  }

  /** A schedule that goes on after a refused answer. */
  lemma PlayRefused(w: World, limit: nat, before: seq<Move>, now: int, after: seq<Move>)
    requires var p := Play(w, limit, before); p.result == Waiting && Refused(p, Deliver(now, false))
    ensures var p := Play(w, limit, before);
            var n := Next(p, limit, Deliver(now, false));
            && Play(w, limit, before + ([Deliver(now, false)] + after)) == Play(n, limit, after)
            && n.server == p.server && n.st.value == p.st.value
            && (n.result ==
                if RouteOf(p.inbox[0].data[0], p.st.dataType) == Segmented(Busy) then Waiting else Completed)
            && (n.result == Completed ==> Play(n, limit, after) == n)
  {
    var p := Play(w, limit, before);
    var m := Deliver(now, false);
    PlayInTurn(w, limit, before, [m] + after);
    RefusedMove(p, limit, m);
    RefusalEnds(p, limit, m);
    assert ([m] + after)[1..] == after;
    assert Bus(limit)(p, m) == Next(p, limit, m);
    if Next(p, limit, m).result != Waiting {
      FinishedStays(Next(p, limit, m), limit, after);
    }
  }

  /** When nothing more is to come, only bystanders and ticks end the call. */
  lemma {:induction false} MutePlay(w: World, limit: nat, moves: seq<Move>)
    requires w.result == Waiting && w.inbox == [] && Bystanders([], moves, w.st.node)
    ensures var v := Play(w, limit, moves);
            v.server == w.server && v.st == w.st && CutBy(EndedBy(w, limit, moves), v.result)
    decreases |moves|
  {
    if moves != [] {
      var m := moves[0];
      assert m in moves;
      assert Bus(limit)(w, m) == Next(w, limit, m);
      if m.Deliver? {
        assert Next(w, limit, m) == w;
        MutePlay(w, limit, moves[1..]);
      } else if BenignMove(w, limit, m) {
        QuietMove(w, limit, m);
        MutePlay(w, limit, moves[1..]);
      } else {
        CuttingMove(w, limit, m);
        FinishedStays(Next(w, limit, m), limit, moves[1..]);
      }
    }
  }

  /** The first move of a schedule, and what is left of the late frames after it. */
  function Front(late: seq<Frame>, m: Move): Move {
    if late != [] && m.Deliver? then Foreign(late[0], m.now, m.taken) else m
  }

  function Left(late: seq<Frame>, m: Move): seq<Frame> {
    if late != [] && m.Deliver? then late[1..] else late
  }

  lemma OneMove(w: World, limit: nat, late: seq<Frame>, moves: seq<Move>)
    requires w.result == Waiting && moves != []
    ensures var u := w.(inbox := late + w.inbox);
            var n := Next(w, limit, Front(late, moves[0]));
            var n' := n.(inbox := Left(late, moves[0]) + n.inbox);
            && Play(u, limit, moves) == Play(n', limit, moves[1..])
            && Heard(u, limit, moves) ==
               (if Refused(u, moves[0]) then 0 else Delivered(moves[0]) + Heard(n', limit, moves[1..]))
            && EndedBy(u, limit, moves) ==
               if n.result != Waiting then EventOf(w, Front(late, moves[0])) else EndedBy(n', limit, moves[1..])
  {
    var u := w.(inbox := late + w.inbox);
    var n := Next(w, limit, Front(late, moves[0]));
    if late != [] {
      LateMove(w, limit, late, moves[0]);
    } else {
      assert late + w.inbox == w.inbox && late + n.inbox == n.inbox;
    }
    assert Bus(limit)(u, moves[0]) == Next(u, limit, moves[0]);
  }

  /** The world `c` accounts for how a schedule ends. */
  predicate Accounts(c: World, v: World, ended: Option<Event>) {
    && v.server == c.server && v.st.value == c.st.value
    && (v.st == c.st || (c.inbox != [] && Draws(c.st, c.inbox[0])))
    && (if c.result != Waiting then v.result == c.result else CutBy(ended, v.result))
  }

  /** How many replies the client heard that were not late. */
  function OwnHeard(u: World, limit: nat, late: nat, moves: seq<Move>): nat {
    Beyond(Heard(u, limit, moves), late)
  }

  /** `c` stands where a schedule leaves client and server. */
  predicate StandsFor(c: World, limit: nat, u: World, moves: seq<Move>) {
    Accounts(c, Play(u, limit, moves), EndedBy(u, limit, moves))
  }

  /** A reply takes a world that stands after `d` replies to one that stands after one more. */
  ghost predicate Advances(limit: nat, holds: (World, nat) -> bool, node: nat) {
    && (forall v, d: nat, now: int ::
          holds(v, d) && v.result == Waiting ==> holds(Next(v, limit, Deliver(now, true)), d + 1))
    && (forall v, d: nat :: holds(v, d) && v.result == Waiting ==> v.st.node == node)
  }

  /** No more than one reply waits. */
  ghost predicate OneWaits(holds: (World, nat) -> bool) {
    forall v, d: nat :: holds(v, d) && v.result == Waiting ==> |v.inbox| <= 1
  }

  /** A world that has ended stands, whatever is delivered. */
  ghost predicate Settles(holds: (World, nat) -> bool) {
    forall v, d: nat :: holds(v, d) && v.result != Waiting ==> holds(v, d + 1)
  }

  /** Benign schedules: at the end the world stands after as many replies as were delivered. */
  lemma {:induction false} BenignPlay(limit: nat, holds: (World, nat) -> bool, node: nat,
                                      w: World, d: nat, moves: seq<Move>)
    requires Advances(limit, holds, node) && Settles(holds) && holds(w, d) && Benign(w, limit, moves)
    ensures holds(Play(w, limit, moves), d + Deliveries(moves))
    decreases |moves|
  {
    if moves != [] {
      var n := Next(w, limit, moves[0]);
      BenignSplits(w, limit, moves);
      assert Bus(limit)(w, moves[0]) == n;
      if moves[0].Deliver? {
        assert w.result == Waiting ==> n == Next(w, limit, Deliver(moves[0].now, true));
        assert holds(n, d + 1);
        BenignPlay(limit, holds, node, n, d + 1, moves[1..]);
      } else {
        QuietMove(w, limit, moves[0]);
        BenignPlay(limit, holds, node, n, d, moves[1..]);
      }
    }
  }

  lemma CutHere(w: World, limit: nat, late: seq<Frame>, moves: seq<Move>)
    requires w.result == Waiting && moves != []
    requires var m := Front(late, moves[0]);
             && !m.Deliver? && !BenignMove(w, limit, m) && (m.Foreign? ==> Bystander(m.frame, w.st.node))
    ensures var u := w.(inbox := late + w.inbox);
            OwnHeard(u, limit, |late|, moves) == 0 && StandsFor(w, limit, u, moves)
  {
    var m, late' := Front(late, moves[0]), Left(late, moves[0]);
    var n := Next(w, limit, m);
    OneMove(w, limit, late, moves);
    CuttingMove(w, limit, m);
    FinishedStays(n.(inbox := late' + n.inbox), limit, moves[1..]);
    assert Heard(n.(inbox := late' + n.inbox), limit, moves[1..]) == 0;
  }

  lemma EndedAlready(w: World, limit: nat, late: seq<Frame>, moves: seq<Move>)
    requires w.result != Waiting || moves == []
    ensures var u := w.(inbox := late + w.inbox);
            OwnHeard(u, limit, |late|, moves) == 0 && StandsFor(w, limit, u, moves)
  {
    if moves != [] {
      FinishedStays(w.(inbox := late + w.inbox), limit, moves);
    }
  }

  /** A late bystander draws no answer. */
  lemma LateDrawsNothing(w: World, late: seq<Frame>, m: Move)
    requires forall f :: f in late ==> Bystander(f, w.st.node)
    ensures Refused(w.(inbox := late + w.inbox), m) <==> late == [] && Refused(w, m)
  {
    if late != [] {
      assert late[0] in late;
      BusyIsNoise(w.st, late[0], true);
    } else {
      assert late + w.inbox == w.inbox;
    }
  }

  /** A move on which the call goes on, or which is the reply that ends it. */
  lemma StandsNext(w: World, limit: nat, late: seq<Frame>, moves: seq<Move>, c: World)
    requires w.result == Waiting && moves != [] && forall f :: f in late ==> Bystander(f, w.st.node)
    requires var m := Front(late, moves[0]);
             if m.Deliver? then !Refused(w, m) else BenignMove(w, limit, m)
    requires var n := Next(w, limit, Front(late, moves[0]));
             && (n.result != Waiting ==> c == n)
             && StandsFor(c, limit, n.(inbox := Left(late, moves[0]) + n.inbox), moves[1..])
    ensures var u := w.(inbox := late + w.inbox);
            var n := Next(w, limit, Front(late, moves[0]));
            var n' := n.(inbox := Left(late, moves[0]) + n.inbox);
            && OwnHeard(u, limit, |late|, moves) ==
               Delivered(Front(late, moves[0])) + OwnHeard(n', limit, |Left(late, moves[0])|, moves[1..])
            && StandsFor(c, limit, u, moves)
  {
    OneMove(w, limit, late, moves);
    LateDrawsNothing(w, late, moves[0]);
    if !Front(late, moves[0]).Deliver? {
      QuietMove(w, limit, Front(late, moves[0]));
    }
  }

  /** The bus refuses the answer to the reply. */
  lemma RefusedHere(w: World, limit: nat, moves: seq<Move>)
    requires w.result == Waiting && moves != [] && Refused(w, moves[0]) && |w.inbox| <= 1
    requires Bystanders([], moves, w.st.node)
    ensures Heard(w, limit, moves) == 0 && StandsFor(w, limit, w, moves)
  {
    var n := Next(w, limit, moves[0]);
    RefusedMove(w, limit, moves[0]);
    assert Bus(limit)(w, moves[0]) == n;
    if n.result == Waiting {
      MutePlay(n, limit, moves[1..]);
    } else {
      FinishedStays(n, limit, moves[1..]);
    }
  }

  /**
   * Schedules that cut calls short.  `holds(w, d)` tells how the world stands after `d` replies;
   * at the end the server and the client's value stand as in `c`, which has seen the `h - d` replies
   * the client heard, and either the last of them ended the call or something else did.
   */
  lemma {:induction false} CutShort(limit: nat, holds: (World, nat) -> bool, node: nat,
                                    w: World, late: seq<Frame>, d: nat, moves: seq<Move>)
    returns (c: World, h: nat)
    requires Advances(limit, holds, node) && OneWaits(holds) && holds(w, d) && Bystanders(late, moves, node)
    ensures var u := w.(inbox := late + w.inbox);
            holds(c, h) && h == d + OwnHeard(u, limit, |late|, moves) && StandsFor(c, limit, u, moves)
    ensures w.result != Waiting ==> c == w
    decreases |moves|
  {
    if w.result != Waiting || moves == [] {
      EndedAlready(w, limit, late, moves);
      c, h := w, d;
    } else {
      var m, late' := Front(late, moves[0]), Left(late, moves[0]);
      assert moves[0] in moves;
      if m.Deliver? && Refused(w, m) {
        assert late + w.inbox == w.inbox;
        RefusedHere(w, limit, moves);
        c, h := w, d;
      } else if m.Deliver? {
        NothingRefused(w, limit, m);
        assert holds(Next(w, limit, m), d + 1);
        c, h := CutShort(limit, holds, node, Next(w, limit, m), late', d + 1, moves[1..]);
        StandsNext(w, limit, late, moves, c);
      } else if BenignMove(w, limit, m) {
        QuietMove(w, limit, m);
        c, h := CutShort(limit, holds, node, w, late', d, moves[1..]);
        StandsNext(w, limit, late, moves, c);
      } else {
        CutHere(w, limit, late, moves);
        c, h := w, d;
      }
    }
  }
}
