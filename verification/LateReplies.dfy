/**
 * Replies are not matched with requests.  A frame of the node's server that is still on its way when
 * a call has drained the bus, such as the answer to a call that timed out, is taken for the reply.
 */
module LateReplies {
  import opened Bytes
  import opened Wrappers
  import opened Values
  import opened Segmentation
  import opened Client
  import opened Traces
  import opened Discipline
  import opened Server
  import opened Transfers
  import opened Writing
  import opened ExpeditedTransfers

  /** The first frame a session delivers is `f`, which is late. */
  predicate DeliversFirst(x: Session, f: Frame) {
    && x.requestOk && x.late != [] && x.late[0] == f
    && x.moves != [] && x.moves[0].Deliver?
  }

  /** A late frame that completes the transaction does so before the reply is looked at. */
  lemma LateFrameEnds(st: IndexState, request: Frame, limit: nat, server: SdoServer, x: Session,
                      f: Frame, done: IndexState)
    requires DeliversFirst(x, f)
    requires var m := x.moves[0];
             OnePass(st, x.start, limit, Received(f, m.taken, m.now)) == Pass(Completed, done, x.start, [])
    ensures var v := Outcome(st, request, limit, server, x);
            v.result == Completed && v.st == done && v.server == OpenedBy(st, request, server, x).server
  {
    var w := OpenedBy(st, request, server, x);
    var m := x.moves[0];
    LateInFront(st, request, server, x);
    OutcomeIsTransaction(st, request, limit, server, x);
    assert w.inbox[0] == f;
    assert Bus(limit)(w, m) == Next(w, limit, m);
    FinishedStays(Next(w, limit, m), limit, x.moves[1..]);
  }

  /** An expedited upload response, for whatever address. */
  function Response(node: nat, address: seq<byte>, b: seq<byte>): Frame
    requires |address| == 3 && 1 <= |b| <= 4
  {
    CanFrame(ReplyId(node), [0x43 + 4 * (4 - |b|)] + address + b + Zeros(4 - |b|))
  }

  /**
   * The wrong fetch: a late response for any address completes the read of any other entry, with
   * the value it carries.  A read of an unsigned number gives the server's value exactly if the two
   * happen to agree.
   */
  lemma LateReplyTaken(st: IndexState, server: SdoServer, own: seq<byte>, address: seq<byte>, b: seq<byte>, x: Session)
    requires 1 <= st.node < 128 && |address| == 3 && 1 <= |b| <= 4 && HasNumber(server, KeyOf(st), own)
    requires DeliversFirst(x, Response(st.node, address, b))
    ensures LittleEndian(b) < WORD
    ensures var v := Outcome(st, ReadRequest(st), READ_LIMIT, server, x);
            && v.result == Completed && v.st.value == Decoded(st.value, LittleEndian(b))
            && (st.value.UIntV? ==> (v.st.value == UIntV(LittleEndian(own)) <==> LittleEndian(b) == LittleEndian(own)))
  {
    var f := Response(st.node, address, b);
    assert f.data[4..4 + |b|] == b;
    NumberArrives(st, x.start, f, b, x.moves[0].taken, x.moves[0].now);
    var done := st.(value := Decoded(st.value, LittleEndian(b)));
    LateFrameEnds(st, ReadRequest(st), READ_LIMIT, server, x, f, done);
  }

  /** A late acknowledgement, of whatever request, completes the write of a number. */
  lemma LateAckTaken(st: IndexState, server: SdoServer, f: Frame, x: Session)
    requires st.dataType != 0x9 && 1 <= st.node < 128 && f.id == ReplyId(st.node) && f.data[0] == 0x60
    requires DeliversFirst(x, f)
    ensures Outcome(st, WriteRequest(st), WRITE_LIMIT, server, x).result == Completed
  {
    AckArrives(st, x.start, f, x.moves[0].taken, x.moves[0].now);
    LateFrameEnds(st, WriteRequest(st), WRITE_LIMIT, server, x, f, st);
  }

  lemma {:induction false} NumberSilent(st: IndexState, timer: int, limit: nat, events: seq<Event>)
    requires ValidState(st) && !st.value.StrV?
    ensures Loop(st, timer, limit, events).sent == []
    decreases |events|
  {
    if events != [] {
      NumberPass(st, timer, limit, events[0]);
      NumberSilent(OnePass(st, timer, limit, events[0]).st, timer, limit, events[1..]);
    }
  }

  /** Under every benign schedule the call ends only when its own reply is delivered. */
  ghost predicate EndsOnOwnReply(st: IndexState, request: Frame, limit: nat, server: SdoServer,
                                 start: int, late: seq<Frame>) {
    forall moves | Benign(Opened(st, request, server, start, late), limit, moves) ::
      Outcome(st, request, limit, server, Session(true, start, late, moves)).result != Waiting
      ==> Deliveries(moves) > |late|
  }

  /**
   * A read or a write of a number completes on the reply to its own request, under every benign
   * schedule, exactly when every late frame is noise for the node.
   */
  lemma OwnReplyExactly(st: IndexState, request: Frame, limit: nat, server: SdoServer, start: int, late: seq<Frame>)
    requires ValidState(st) && !st.value.StrV?
    ensures EndsOnOwnReply(st, request, limit, server, start, late) <==> forall f :: f in late ==> IsNoise(f, st.node)
  {
    LateFrames(st, request, limit, server, start, late);
    forall moves
      ensures var x := Session(true, start, late, moves);
              var r := Transact(st, request, limit, Seen(st, request, limit, server, x));
              Outcome(st, request, limit, server, x).result == r.result && r.sent == [request]
    {
      var x := Session(true, start, late, moves);
      OutcomeIsTransaction(st, request, limit, server, x);
      NumberSilent(st, start, limit, TraceOf(OpenedBy(st, request, server, x), limit, moves));
      assert [request] + [] == [request];
    }
  }

  /** A call on a number that did not succeed leaves its reply on the bus. */
  lemma {:induction false} ReplyStays(w: World, limit: nat, moves: seq<Move>)
    requires ValidState(w.st) && !w.st.value.StrV? && |w.inbox| == 1 && !IsNoise(w.inbox[0], w.st.node)
    ensures !Succeeds(Play(w, limit, moves).result) ==> Play(w, limit, moves).inbox == w.inbox
    decreases |moves|
  {
    if moves != [] {
      var n := Next(w, limit, moves[0]);
      assert Bus(limit)(w, moves[0]) == n;
      if w.result == Waiting {
        NumberPass(w.st, w.timer, limit, EventOf(w, moves[0]).value);
      }
      if Succeeds(n.result) {
        FinishedStays(n, limit, moves[1..]);
      } else {
        ReplyStays(n, limit, moves[1..]);
      }
    }
  }

  lemma LeftOver(st: IndexState, request: Frame, limit: nat, server: SdoServer, x: Session)
    requires ValidState(st) && !st.value.StrV? && 1 <= st.node < 128 && x.requestOk && x.late == []
    requires Serve(server, request.data).reply.Some? && Serve(server, request.data).reply.value[0] < 0x80
    ensures var v := Outcome(st, request, limit, server, x);
            !Succeeds(v.result) ==> v.inbox == [CanFrame(ReplyId(st.node), Serve(server, request.data).reply.value)]
  {
    var w := World(Waiting, st, x.start, server, []);
    OneExchange(w, request);
    ReplyStays(Opened(st, request, server, x.start, []), limit, x.moves);
  }

  /**
   * Two reads in sequence.  The first one fails or is still waiting, under whatever schedule, and what
   * it leaves on the bus is late in the second.  If the second call sees that frame first, it gives the
   * value of the first entry.
   */
  lemma SecondReadWrong(first: IndexState, second: IndexState, server: SdoServer, b: seq<byte>, own: seq<byte>,
                        x: Session, y: Session)
    requires ValidState(first) && !first.value.StrV? && 1 <= first.node == second.node < 128
    requires HasNumber(server, KeyOf(first), b) && HasNumber(server, KeyOf(second), own)
    requires x.requestOk && x.late == [] && y.requestOk && y.moves != [] && y.moves[0].Deliver?
    requires var v := Outcome(first, ReadRequest(first), READ_LIMIT, server, x);
             !Succeeds(v.result) && y.late == v.inbox
    ensures LittleEndian(b) < WORD
    ensures var v := Outcome(first, ReadRequest(first), READ_LIMIT, server, x);
            var r := Outcome(second, ReadRequest(second), READ_LIMIT, v.server, y);
            && HasNumber(v.server, KeyOf(second), own)
            && r.result == Completed && r.st.value == Decoded(second.value, LittleEndian(b))
            && (second.value.UIntV? ==>
                  (r.st.value == UIntV(LittleEndian(own)) <==> LittleEndian(b) == LittleEndian(own)))
  {
    ServerSendsNumber(server, first, b);
    LeftOver(first, ReadRequest(first), READ_LIMIT, server, x);
    DictionaryStays(first, server, b, x);
    var v := Outcome(first, ReadRequest(first), READ_LIMIT, server, x);
    var f := v.inbox[0];
    NumberArrives(second, y.start, f, b, y.moves[0].taken, y.moves[0].now);
    var done := second.(value := Decoded(second.value, LittleEndian(b)));
    LateFrameEnds(second, ReadRequest(second), READ_LIMIT, v.server, y, f, done);
  }

  lemma DictionaryStays(st: IndexState, server: SdoServer, b: seq<byte>, x: Session)
    requires ValidState(st) && !st.value.StrV? && x.requestOk && x.late == [] && HasNumber(server, KeyOf(st), b)
    ensures Outcome(st, ReadRequest(st), READ_LIMIT, server, x).server.dictionary == server.dictionary
  {
    ServerSendsNumber(server, st, b);
    OneExchange(World(Waiting, st, x.start, server, []), ReadRequest(st));
    NumberIsolated(Opened(st, ReadRequest(st), server, x.start, []), READ_LIMIT, x.moves);
  }

  /** The write of a number that fails or still waits leaves an acknowledgement for the next call. */
  lemma AckLeftOver(st: IndexState, server: SdoServer, x: Session)
    requires ValidState(st) && !st.value.StrV? && st.dataType != 0x9 && 1 <= st.node < 128
    requires x.requestOk && x.late == []
    ensures var v := Outcome(st, WriteRequest(st), WRITE_LIMIT, server, x);
            !Succeeds(v.result) ==>
              |v.inbox| == 1 && v.inbox[0].id == ReplyId(st.node) && v.inbox[0].data[0] == 0x60
  {
    ServerStores(st, server);
    LeftOver(st, WriteRequest(st), WRITE_LIMIT, server, x);
  }

  /** Two frames wait, with these commands. */
  predicate Waits(w: World, first: byte, second: byte) {
    |w.inbox| == 2 && w.inbox[0].data[0] == first && w.inbox[1].data[0] == second
  }

  /** A transfer that goes on, of the index object `st`. */
  predicate GoesOn(w: World, st: IndexState) {
    && w.result == Waiting && SameEntry(w.st, st) && w.st.value == st.value && ValidState(w.st)
    && forall f :: f in w.inbox ==> f.id == ReplyId(st.node)
  }

  /** The world of a string write after `d` deliveries, of which the first is a late acknowledgement. */
  predicate AfterLateAck(w: World, st: IndexState, server: SdoServer, d: nat) {
    var s := Chars(st.value);
    && w.server.dictionary == DictionaryAfter(server, st, Min(d, 1))
    && if (s == [] && d >= 1) || (0 < |s| <= 7 && d >= 3) then w.result == Completed
       else
         && GoesOn(w, st)
         && (d == 0 ==> Waits(w, 0x60, 0x60) && w.server == ServerAt(server, st, 0))
         && (d == 1 ==> Waits(w, 0x60, 0x20) && w.server == ServerAt(server, st, 1))
         && (d == 2 ==> Waits(w, 0x20, 0x80) && w.st.text == Some(s[Chunk(s)..]) && w.st.toggle == Flip(DOWNLOAD))
         && (d >= 2 ==> w.server.transfer == NoTransfer)
         && (d >= 3 ==> forall f :: f in w.inbox ==> f.data[0] == 0x80)
  }

  /** A delivery on which the client sends one frame, which the server answers. */
  lemma AnsweredMove(w: World, limit: nat, m: Move, f: Frame)
    requires m.Deliver? && m.taken && w.result == Waiting && w.inbox != []
    requires var p := OnePass(w.st, w.timer, limit, Received(w.inbox[0], true, m.now));
             p.sent == [f] && SameEntry(p.st, w.st) && Serve(w.server, f.data).reply.Some?
    ensures var p := OnePass(w.st, w.timer, limit, Received(w.inbox[0], true, m.now));
            var s := Serve(w.server, f.data);
            Next(w, limit, m) == World(p.result, p.st, p.timer, s.server,
                                       w.inbox[1..] + [CanFrame(ReplyId(w.st.node), s.reply.value)])
  {
    var p := OnePass(w.st, w.timer, limit, Received(w.inbox[0], true, m.now));
    var v := World(p.result, p.st, p.timer, w.server, w.inbox[1..]);
    var s := Serve(w.server, f.data);
    var reply: Frame := CanFrame(ReplyId(w.st.node), s.reply.value);
    assert Exchanged(v, [f]) == Exchanged(v.(server := s.server, inbox := v.inbox + [reply]), [f][1..]);
  }

  /** The client begins the download, once more or for the first time. */
  lemma Begins(st: IndexState, timer: int, f: Frame, now: int)
    requires Writable(st) && f.id == ReplyId(st.node) && f.data[0] == 0x60
    ensures var s := Chars(st.value);
            var p := OnePass(st, timer, WRITE_LIMIT, Received(f, true, now));
            if s == [] then p.result == Completed && p.sent == []
            else
              && p.result == Waiting && SameEntry(p.st, st) && p.st.value == st.value && ValidState(p.st)
              && p.sent == [CanFrame(RequestId(st.node), SegmentOf(DOWNLOAD, s))]
              && p.st.text == Some(s[Chunk(s)..]) && p.st.toggle == Flip(DOWNLOAD)
  {
    ToggleStepValid(st, f.data);
    TransferPass(st, timer, WRITE_LIMIT, f, now);
  }

  /** The client sends the next segment, or has nothing left. */
  lemma Continues(st: IndexState, timer: int, f: Frame, now: int)
    requires Writable(st) && f.id == ReplyId(st.node) && f.data[0] == 0x20 && st.text.Some?
    ensures var p := OnePass(st, timer, WRITE_LIMIT, Received(f, true, now));
            if st.text.value == [] then p.result == Completed && p.sent == []
            else
              && p.result == Waiting && SameEntry(p.st, st) && p.st.value == st.value && ValidState(p.st)
              && p.sent == [CanFrame(RequestId(st.node), SegmentOf(st.toggle, st.text.value))]
  {
    ToggleStepValid(st, f.data);
    TransferPass(st, timer, WRITE_LIMIT, f, now);
  }

  /** A server aborts on a segment it does not expect. */
  lemma Unexpected(server: SdoServer, toggle: nat, s: seq<byte>)
    requires toggle in {DOWNLOAD, Flip(DOWNLOAD)} && s != []
    requires server.transfer == NoTransfer || (server.transfer.Downloading? && server.transfer.toggle != toggle / 16)
    ensures var r := Serve(server, SegmentOf(toggle, s));
            && r.server == server.(transfer := NoTransfer) && r.reply.Some? && r.reply.value[0] == 0x80
  {
    HeaderBits(toggle, s);
  }

  lemma LateAckDelivered(st: IndexState, server: SdoServer, w: World, m: Move)
    requires Writable(st) && AfterLateAck(w, st, server, 0) && m.Deliver? && m.taken
    ensures AfterLateAck(Next(w, WRITE_LIMIT, m), st, server, 1)
  {
    var s := Chars(st.value);
    Begins(w.st, w.timer, w.inbox[0], m.now);
    if s != [] {
      ServerTakesSegment(st, server, 0);
      assert s[7 * 0..] == s;
      AnsweredMove(w, WRITE_LIMIT, m, CanFrame(RequestId(st.node), SegmentOf(DOWNLOAD, s)));
    }
  }

  lemma OwnAckDelivered(st: IndexState, server: SdoServer, w: World, m: Move)
    requires Writable(st) && Chars(st.value) != [] && AfterLateAck(w, st, server, 1) && m.Deliver? && m.taken
    ensures AfterLateAck(Next(w, WRITE_LIMIT, m), st, server, 2)
  {
    var s := Chars(st.value);
    Begins(w.st, w.timer, w.inbox[0], m.now);
    Unexpected(w.server, DOWNLOAD, s);
    AnsweredMove(w, WRITE_LIMIT, m, CanFrame(RequestId(st.node), SegmentOf(DOWNLOAD, s)));
  }

  lemma SegmentAckDelivered(st: IndexState, server: SdoServer, w: World, m: Move)
    requires Writable(st) && Chars(st.value) != [] && AfterLateAck(w, st, server, 2) && m.Deliver? && m.taken
    ensures AfterLateAck(Next(w, WRITE_LIMIT, m), st, server, 3)
  {
    var s := Chars(st.value);
    var rest := s[Chunk(s)..];
    Continues(w.st, w.timer, w.inbox[0], m.now);
    if rest != [] {
      Unexpected(w.server, Flip(DOWNLOAD), rest);
      AnsweredMove(w, WRITE_LIMIT, m, CanFrame(RequestId(st.node), SegmentOf(Flip(DOWNLOAD), rest)));
    }
  }

  /** Only aborts are on the way, and the client ignores them. */
  lemma AbortDelivered(st: IndexState, server: SdoServer, w: World, d: nat, m: Move)
    requires Writable(st) && AfterLateAck(w, st, server, d) && d >= 3 && w.result == Waiting && m.Deliver?
    ensures AfterLateAck(Next(w, WRITE_LIMIT, m), st, server, d + 1)
  {
    if w.inbox != [] {
      assert w.inbox[0] in w.inbox;
      BusyIsNoise(w.st, w.inbox[0], m.taken);
      assert Next(w, WRITE_LIMIT, m) == w.(inbox := w.inbox[1..]);
    }
  }

  lemma LateAckAdvances(st: IndexState, server: SdoServer)
    requires Writable(st)
    ensures var holds := (v: World, d: nat) => AfterLateAck(v, st, server, d);
            Advances(WRITE_LIMIT, holds, st.node) && Settles(holds)
  {
    forall v, d: nat, now: int | AfterLateAck(v, st, server, d) && v.result == Waiting
      ensures AfterLateAck(Next(v, WRITE_LIMIT, Deliver(now, true)), st, server, d + 1)
    {
      var m := Deliver(now, true);
      if d == 0 {
        LateAckDelivered(st, server, v, m);
      } else if d == 1 {
        OwnAckDelivered(st, server, v, m);
      } else if d == 2 {
        SegmentAckDelivered(st, server, v, m);
      } else {
        AbortDelivered(st, server, v, d, m);
      }
    }
  }

  lemma LateAckStarts(st: IndexState, server: SdoServer, f: Frame, x: Session)
    requires Writable(st) && f.id == ReplyId(st.node) && f.data[0] == 0x60 && x.late == [f]
    ensures AfterLateAck(OpenedBy(st, WriteRequest(st), server, x), st, server, 0)
  {
    LateInFront(st, WriteRequest(st), server, x);
    WriteOpens(st, server, x.start);
  }

  /**
   * The wrong write: what one late acknowledgement makes of a string.  The client sends the first
   * segment twice, and the server aborts on the second one.  The entry changes exactly if the server
   * takes at most one segment, learns of the end, and gets it.  The call completes exactly for the
   * strings of at most seven bytes, on the acknowledgement of the first segment; for a longer one it
   * waits for ever.
   */
  lemma LateAckExactly(st: IndexState, server: SdoServer, f: Frame, x: Session)
    requires Writable(st) && f.id == ReplyId(st.node) && f.data[0] == 0x60 && x.late == [f] && x.requestOk
    requires Benign(OpenedBy(st, WriteRequest(st), server, x), WRITE_LIMIT, x.moves)
    ensures var v := Outcome(st, WriteRequest(st), WRITE_LIMIT, server, x);
            var s := Chars(st.value);
            var q := Quota(server.counts, s);
            var d := Deliveries(x.moves);
            && v.result ==
               (if (s == [] && d >= 1) || (0 < |s| <= 7 && d >= 3) then Completed else Waiting)
            && v.server.dictionary ==
               (if q <= 1 && q <= d && Ends(server.counts, s)
                then server.dictionary[KeyOf(st) := Characters(Accepted(server.counts, s))]
                else server.dictionary)
  {
    var w := OpenedBy(st, WriteRequest(st), server, x);
    LateAckStarts(st, server, f, x);
    var holds := (v: World, d: nat) => AfterLateAck(v, st, server, d);
    LateAckAdvances(st, server);
    BenignPlay(WRITE_LIMIT, holds, st.node, w, 0, x.moves);
    assert holds(Play(w, WRITE_LIMIT, x.moves), Deliveries(x.moves));
  }
}
