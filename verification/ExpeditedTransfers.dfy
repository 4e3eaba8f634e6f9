/** Numbers: a write and a read of up to four bytes, each in one exchange. */
module ExpeditedTransfers {
  import opened Bytes
  import opened Wrappers
  import opened Values
  import opened Segmentation
  import opened Client
  import opened Traces
  import opened Server
  import opened Transfers
  import Address

  function Modulus(w: nat): (m: nat)
    ensures m > 0
  {
    if w == 1 then 0x100 else if w == 2 then 0x1_0000 else WORD
  }

  function NumberBytes(st: IndexState): (b: seq<byte>)
    ensures |b| == Width(st.dataType)
  {
    Word4(Encoded(st.value))[..Width(st.dataType)]
  }

  /** The bytes of a number, low byte first: its number modulo 256 to their count. */
  predicate BytesOf(b: seq<byte>, w: nat, v: Value) {
    |b| == w && Carries(LittleEndian(b), Modulus(w), v)
  }

  lemma BytesCarry(st: IndexState)
    requires !st.value.StrV?
    ensures BytesOf(NumberBytes(st), Width(st.dataType), st.value)
  {
    Word4Prefix(Encoded(st.value));
    EncodedCarries(st.value, Modulus(Width(st.dataType)));
  }

  /** `r` is the value of the type of `v` that the bytes `b` stand for; a string is left alone. */
  predicate Fetched(r: Value, v: Value, b: seq<byte>) {
    if v.StrV? then r == v
    else TypeOf(r) == TypeOf(v) && WellTyped(r) && Holds(r, LittleEndian(b))
  }

  lemma NumberFetched(v: Value, b: seq<byte>)
    requires |b| <= 4
    ensures LittleEndian(b) < WORD && Fetched(Decoded(v, LittleEndian(b)), v, b)
  {
    SmallNumber(b);
    DecodedHolds(v, LittleEndian(b));
  }

  lemma SmallNumber(b: seq<byte>)
    requires |b| <= 4
    ensures LittleEndian(b) < WORD
  {
    if |b| == 1 {
      LittleEndian1(b);
    } else if |b| == 2 {
      LittleEndian2(b);
    } else if |b| == 3 {
      LittleEndian3(b);
    } else if |b| == 4 {
      LittleEndian4(b);
    }
  }

  /**
   * A schedule with one reply, which completes the transaction: the client completes with the first
   * delivery and everything else leaves the bus alone.
   */
  lemma OneReply(w: World, limit: nat, moves: seq<Move>, done: IndexState)
    requires w.result == Waiting && |w.inbox| == 1 && Benign(w, limit, moves)
    requires forall now :: OnePass(w.st, w.timer, limit, Received(w.inbox[0], true, now))
                           == Pass(Completed, done, w.timer, [])
    ensures Play(w, limit, moves) ==
            if Deliveries(moves) == 0 then w else World(Completed, done, w.timer, w.server, [])
  {
    OneReplyAdvances(w, limit, done);
    var holds := (v: World, d: nat) => v == if d == 0 then w else World(Completed, done, w.timer, w.server, []);
    BenignPlay(limit, holds, w.st.node, w, 0, moves);
  }

  lemma OneReplyAdvances(w: World, limit: nat, done: IndexState)
    requires w.result == Waiting && |w.inbox| == 1
    requires forall now :: OnePass(w.st, w.timer, limit, Received(w.inbox[0], true, now))
                           == Pass(Completed, done, w.timer, [])
    ensures var holds := (v: World, d: nat) => v == if d == 0 then w else World(Completed, done, w.timer, w.server, []);
            Advances(limit, holds, w.st.node) && Settles(holds) && OneWaits(holds)
  {
    forall now: int
      ensures Next(w, limit, Deliver(now, true)) == World(Completed, done, w.timer, w.server, [])
    {
      DeliverMove(w, limit, Deliver(now, true));
    }
  }

  /** The same with schedules that cut the call short, and late frames. */
  lemma OneReplyOrCut(w: World, limit: nat, late: seq<Frame>, moves: seq<Move>, done: IndexState)
    requires w.result == Waiting && |w.inbox| == 1 && Bystanders(late, moves, w.st.node)
    requires forall now :: OnePass(w.st, w.timer, limit, Received(w.inbox[0], true, now))
                           == Pass(Completed, done, w.timer, [])
    ensures var u := w.(inbox := late + w.inbox);
            var v := Play(u, limit, moves);
            && v.server == w.server
            && if OwnHeard(u, limit, |late|, moves) > 0 then v.result == Completed && v.st == done
               else CutBy(EndedBy(u, limit, moves), v.result) && v.st == w.st
  {
    OneReplyAdvances(w, limit, done);
    var holds := (v: World, d: nat) => v == if d == 0 then w else World(Completed, done, w.timer, w.server, []);
    var c, h := CutShort(limit, holds, w.st.node, w, late, 0, moves);
    assert !Draws(w.st, w.inbox[0]) by {
      assert OnePass(w.st, w.timer, limit, Received(w.inbox[0], true, 0)).result == Completed;
    }
  }

  lemma ExpeditedCommand(c: byte, w: nat)
    requires w in {1, 2, 4} && c == 0x23 + 4 * (4 - w)
    ensures c / 32 == 1 && c / 2 % 2 == 1 && c % 2 == 1 && c / 4 % 4 == 4 - w
  {
  }

  lemma ServeExpedited(server: SdoServer, data: seq<byte>, w: nat)
    requires |data| == 8 && w in {1, 2, 4} && data[0] == 0x23 + 4 * (4 - w)
    ensures var r := Serve(server, data);
            && r.server == Committed(server, Address.Unpacked(data), Numeric(data[4..4 + w]))
            && r.reply.Some? && r.reply.value[0] == 0x60
  {
    ExpeditedCommand(data[0], w);
    assert Serve(server, data) == InitiateDownload(server, data);
  }

  /** The server stores the bytes of an expedited request at once. */
  lemma ServerStores(st: IndexState, server: SdoServer)
    requires st.dataType != 0x9
    ensures var r := Serve(server, WriteRequest(st).data);
            && r.server == Committed(server, KeyOf(st), Numeric(NumberBytes(st)))
            && r.reply.Some? && r.reply.value[0] == 0x60
  {
    var data := WriteRequest(st).data;
    KeyOfRequest(st, WriteCommand(st.dataType), Encoded(st.value));
    ServeExpedited(server, data, Width(st.dataType));
    assert data[4..4 + Width(st.dataType)] == data[4..][..Width(st.dataType)];
  }

  lemma AckArrives(st: IndexState, timer: int, f: Frame, taken: bool, now: int)
    requires st.dataType != 0x9 && 1 <= st.node < 128 && f.id == ReplyId(st.node) && f.data[0] == 0x60
    ensures OnePass(st, timer, WRITE_LIMIT, Received(f, taken, now)) == Pass(Completed, st, timer, [])
  {
    assert RouteOf(f.data[0], st.dataType) == Acknowledged;
  }

  /**
   * Writing a number is one assignment, in one exchange: the server's entry has its low bytes and no
   * other entry has changed; the call completes exactly when the reply is delivered.
   */
  lemma NumberWrite(st: IndexState, server: SdoServer, x: Session)
    requires ValidState(st) && st.dataType != 0x9 && 1 <= st.node < 128
    requires Undisturbed(st, WriteRequest(st), WRITE_LIMIT, server, x)
    ensures var v := Outcome(st, WriteRequest(st), WRITE_LIMIT, server, x);
            && v.result == (if Own(x) > 0 then Completed else Waiting)
            && v.st == st && v.server.dictionary == server.dictionary[KeyOf(st) := Numeric(NumberBytes(st))]
    ensures BytesOf(NumberBytes(st), Width(st.dataType), st.value)
  {
    BytesCarry(st);
    var w := Opened(st, WriteRequest(st), server, x.start, []);
    WithoutLate(st, WriteRequest(st), WRITE_LIMIT, server, x);
    ServerStores(st, server);
    OneExchange(World(Waiting, st, x.start, server, []), WriteRequest(st));
    forall now {
      AckArrives(st, x.start, w.inbox[0], true, now);
    }
    OneReply(w, WRITE_LIMIT, Relabelled(x.late, x.moves), st);
  }

  /**
   * Resets, heartbeats and time-outs may cut the write short: the entry has changed if and only if
   * the bus took the request, whatever the call returns.
   */
  lemma NumberWriteIsAtomic(st: IndexState, server: SdoServer, x: Session)
    requires ValidState(st) && st.dataType != 0x9 && 1 <= st.node < 128 && Bystanders(x.late, x.moves, st.node)
    ensures var v := Outcome(st, WriteRequest(st), WRITE_LIMIT, server, x);
            var w := OpenedBy(st, WriteRequest(st), server, x);
            && v.st == st
            && v.server.dictionary ==
               (if x.requestOk then server.dictionary[KeyOf(st) := Numeric(NumberBytes(st))] else server.dictionary)
            && (if !x.requestOk then v.result == Failed
                else if OwnHeard(w, WRITE_LIMIT, |x.late|, x.moves) > 0 then v.result == Completed
                else CutBy(EndedBy(w, WRITE_LIMIT, x.moves), v.result))
    ensures BytesOf(NumberBytes(st), Width(st.dataType), st.value)
  {
    BytesCarry(st);
    var w := Opened(st, WriteRequest(st), server, x.start, []);
    LateInFront(st, WriteRequest(st), server, x);
    ServerStores(st, server);
    OneExchange(World(Waiting, st, x.start, server, []), WriteRequest(st));
    forall now {
      AckArrives(st, x.start, w.inbox[0], true, now);
    }
    OneReplyOrCut(w, WRITE_LIMIT, x.late, x.moves, st);
  }

  /** The client decodes exactly the bytes a response carries. */
  lemma WordOfResponse(data: seq<byte>, b: seq<byte>)
    requires |data| == 8 && 1 <= |b| <= 4
    requires data[0] == 0x43 + 4 * (4 - |b|) && data[4..4 + |b|] == b
    ensures ExpeditedWord(data) == LittleEndian(b)
  {
    assert data[4] == data[4..4 + |b|][0];
    if |b| == 1 {
      LittleEndian1(b);
    } else {
      assert data[5] == data[4..4 + |b|][1];
      if |b| == 2 {
        LittleEndian2(b);
      } else {
        assert data[6] == data[4..4 + |b|][2];
        if |b| == 3 {
          LittleEndian3(b);
        } else {
          assert data[7] == data[4..4 + |b|][3];
          LittleEndian4(b);
        }
      }
    }
  }

  predicate HasNumber(server: SdoServer, key: Key, b: seq<byte>) {
    key in server.dictionary && server.dictionary[key] == Numeric(b) && 1 <= |b| <= 4
  }

  lemma ServerSendsNumber(server: SdoServer, st: IndexState, b: seq<byte>)
    requires HasNumber(server, KeyOf(st), b)
    ensures var r := Serve(server, ReadRequest(st).data);
            && r.server.dictionary == server.dictionary && r.reply.Some?
            && r.reply.value[0] == 0x43 + 4 * (4 - |b|) && r.reply.value[4..4 + |b|] == b
  {
    KeyOfRequest(st, 0x40, 0);
    var data := ReadRequest(st).data;
    assert Serve(server, data) == InitiateUpload(server, data);
    var reply := [0x43 + 4 * (4 - |b|)] + data[1..4] + b + Zeros(4 - |b|);
    assert reply[4..4 + |b|] == b;
  }

  lemma ResponseCommand(c: byte, n: nat)
    requires 1 <= n <= 4 && c == 0x43 + 4 * (4 - n)
    ensures c / 32 == 2 && c / 2 % 2 == 1
  {
  }

  lemma NumberArrives(st: IndexState, timer: int, f: Frame, b: seq<byte>, taken: bool, now: int)
    requires 1 <= st.node < 128 && f.id == ReplyId(st.node)
    requires 1 <= |b| <= 4 && f.data[0] == 0x43 + 4 * (4 - |b|) && f.data[4..4 + |b|] == b
    ensures LittleEndian(b) < WORD
    ensures OnePass(st, timer, READ_LIMIT, Received(f, taken, now)) ==
            Pass(Completed, st.(value := Decoded(st.value, LittleEndian(b))), timer, [])
  {
    WordOfResponse(f.data, b);
    ResponseCommand(f.data[0], |b|);
    assert RouteOf(f.data[0], st.dataType) == Expedited;
    assert NodeOf(f) == st.node;
  }

  /** Reading a number is one fetch, in one exchange. */
  lemma NumberRead(st: IndexState, server: SdoServer, b: seq<byte>, x: Session)
    requires 1 <= st.node < 128 && HasNumber(server, KeyOf(st), b)
    requires Undisturbed(st, ReadRequest(st), READ_LIMIT, server, x)
    ensures LittleEndian(b) < WORD
    ensures var v := Outcome(st, ReadRequest(st), READ_LIMIT, server, x);
            && v.result == (if Own(x) > 0 then Completed else Waiting)
            && v.st == (if Own(x) > 0 then st.(value := Decoded(st.value, LittleEndian(b))) else st)
            && v.server.dictionary == server.dictionary
    ensures Fetched(Decoded(st.value, LittleEndian(b)), st.value, b)
  {
    NumberFetched(st.value, b);
    var w := Opened(st, ReadRequest(st), server, x.start, []);
    WithoutLate(st, ReadRequest(st), READ_LIMIT, server, x);
    ServerSendsNumber(server, st, b);
    OneExchange(World(Waiting, st, x.start, server, []), ReadRequest(st));
    NumberArrives(st, x.start, w.inbox[0], b, true, 0);
    forall now {
      NumberArrives(st, x.start, w.inbox[0], b, true, now);
    }
    OneReply(w, READ_LIMIT, Relabelled(x.late, x.moves), st.(value := Decoded(st.value, LittleEndian(b))));
  }

  /** Cut short, a read keeps the old value, and yet it succeeds unless a tick cut it. */
  lemma NumberReadIsAtomic(st: IndexState, server: SdoServer, b: seq<byte>, x: Session)
    requires 1 <= st.node < 128 && HasNumber(server, KeyOf(st), b)
    requires Bystanders(x.late, x.moves, st.node)
    ensures LittleEndian(b) < WORD
    ensures var v := Outcome(st, ReadRequest(st), READ_LIMIT, server, x);
            var w := OpenedBy(st, ReadRequest(st), server, x);
            && v.server.dictionary == server.dictionary
            && if !x.requestOk then v.result == Failed && v.st == st
               else if OwnHeard(w, READ_LIMIT, |x.late|, x.moves) > 0 then
                 v.result == Completed && v.st == st.(value := Decoded(st.value, LittleEndian(b)))
               else CutBy(EndedBy(w, READ_LIMIT, x.moves), v.result) && v.st == st
    ensures Fetched(Decoded(st.value, LittleEndian(b)), st.value, b)
  {
    NumberFetched(st.value, b);
    var w := Opened(st, ReadRequest(st), server, x.start, []);
    LateInFront(st, ReadRequest(st), server, x);
    ServerSendsNumber(server, st, b);
    OneExchange(World(Waiting, st, x.start, server, []), ReadRequest(st));
    NumberArrives(st, x.start, w.inbox[0], b, true, 0);
    forall now {
      NumberArrives(st, x.start, w.inbox[0], b, true, now);
    }
    OneReplyOrCut(w, READ_LIMIT, x.late, x.moves, st.(value := Decoded(st.value, LittleEndian(b))));
  }

  /** What a frame that is no noise makes of an index object that holds a number. */
  function Struck(st: IndexState, f: Frame): IndexState {
    if f.id < 0x700 && RouteOf(f.data[0], st.dataType).Expedited? then
      st.(value := Decoded(st.value, ExpeditedWord(f.data)))
    else st
  }

  /** An object that holds no string never answers; it waits on over noise, and any other frame ends the call. */
  lemma NumberPass(st: IndexState, timer: int, limit: nat, e: Event)
    requires ValidState(st) && !st.value.StrV?
    ensures var p := OnePass(st, timer, limit, e);
            && p.sent == [] && p.timer == timer && ValidState(p.st) && SameEntry(p.st, st)
            && TypeOf(p.st.value) == TypeOf(st.value)
            && match e
               case Idle(now) => p.st == st && p.result == if Expired(now - timer, limit) then Failed else Waiting
               case Received(f, _, _) =>
                 if IsNoise(f, st.node) then p.result == Waiting && p.st == st
                 else Succeeds(p.result) && p.st == Struck(st, f)
  {
    PassKeeps(st, timer, limit, e);
  }

  lemma NumberMove(w: World, limit: nat, m: Move)
    requires ValidState(w.st) && !w.st.value.StrV?
    ensures var v := Next(w, limit, m);
            && v.server == w.server && ValidState(v.st) && SameEntry(v.st, w.st)
            && TypeOf(v.st.value) == TypeOf(w.st.value) && v.timer == w.timer
            && (!Succeeds(v.result) ==> v.st == w.st)
            && (w.result == Waiting ==> ByEvent(w.st, v, if v.result == Waiting then None else EventOf(w, m)))
  {
    if w.result == Waiting && EventOf(w, m).Some? {
      NumberPass(w.st, w.timer, limit, EventOf(w, m).value);
    }
  }

  /** How a call on a number ends, by the event that ended it: the first frame that is no noise, or a tick. */
  predicate ByEvent(st: IndexState, v: World, ended: Option<Event>) {
    match ended
    case None => v.result == Waiting && v.st == st
    case Some(Idle(_)) => v.result == Failed && v.st == st
    case Some(Received(f, _, _)) => !IsNoise(f, st.node) && Succeeds(v.result) && v.st == Struck(st, f)
  }

  /** After its request a transaction on a number leaves the server alone, whatever the schedule. */
  lemma {:induction false} NumberIsolated(w: World, limit: nat, moves: seq<Move>)
    requires ValidState(w.st) && !w.st.value.StrV?
    ensures var v := Play(w, limit, moves);
            && v.server == w.server && ValidState(v.st) && SameEntry(v.st, w.st)
            && TypeOf(v.st.value) == TypeOf(w.st.value)
            && (!Succeeds(v.result) ==> v.st == w.st)
    decreases |moves|
  {
    if moves != [] {
      var n := Next(w, limit, moves[0]);
      assert Bus(limit)(w, moves[0]) == n;
      NumberMove(w, limit, moves[0]);
      NumberIsolated(n, limit, moves[1..]);
      if Succeeds(n.result) {
        FinishedStays(n, limit, moves[1..]);
      }
    }
  }

  /** Under every schedule the first frame that is no noise for the node ends the call, unless a tick does. */
  lemma {:induction false} NumberEnds(w: World, limit: nat, moves: seq<Move>)
    requires ValidState(w.st) && !w.st.value.StrV? && w.result == Waiting
    ensures ByEvent(w.st, Play(w, limit, moves), EndedBy(w, limit, moves))
    decreases |moves|
  {
    if moves != [] {
      var n := Next(w, limit, moves[0]);
      assert Bus(limit)(w, moves[0]) == n;
      NumberMove(w, limit, moves[0]);
      if n.result == Waiting {
        NumberEnds(n, limit, moves[1..]);
      } else {
        FinishedStays(n, limit, moves[1..]);
      }
    }
  }

  /** What comes back of a value that was written and read: its word cut to the width, not sign-extended. */
  function ReadBack(dataType: nat, v: Value): Value {
    Decoded(v, Encoded(v) % Modulus(Width(dataType)))
  }

  lemma BytesRead(st: IndexState)
    ensures LittleEndian(NumberBytes(st)) == Encoded(st.value) % Modulus(Width(st.dataType)) < WORD
  {
    Word4Prefix(Encoded(st.value));
    assert Word4(Encoded(st.value))[..4] == Word4(Encoded(st.value));
  }

  lemma DecodedByType(a: Value, b: Value, w: nat)
    requires TypeOf(a) == TypeOf(b) != GString && w < WORD
    ensures Decoded(a, w) == Decoded(b, w)
  {
  }

  /**
   * Codec round trip: a number written and then read, by any index object of the same data type,
   * comes back as its 32-bit word modulo 256 to the width.
   */
  lemma NumberRoundTrip(writer: IndexState, reader: IndexState, server: SdoServer, writing: Session, reading: Session)
    requires ValidState(writer) && ValidState(reader) && 1 <= writer.node < 128 && 1 <= reader.node < 128
    requires writer.dataType == reader.dataType != 0x9 && KeyOf(reader) == KeyOf(writer)
    requires Undisturbed(writer, WriteRequest(writer), WRITE_LIMIT, server, writing)
    requires Own(writing) > 0 && Own(reading) > 0
    requires var v := Outcome(writer, WriteRequest(writer), WRITE_LIMIT, server, writing);
             Undisturbed(reader, ReadRequest(reader), READ_LIMIT, v.server, reading)
    ensures var v := Outcome(writer, WriteRequest(writer), WRITE_LIMIT, server, writing);
            var r := Outcome(reader, ReadRequest(reader), READ_LIMIT, v.server, reading);
            r.result == Completed && r.st.value == ReadBack(writer.dataType, writer.value)
  {
    NumberWrite(writer, server, writing);
    var v := Outcome(writer, WriteRequest(writer), WRITE_LIMIT, server, writing);
    NumberRead(reader, v.server, NumberBytes(writer), reading);
    BytesRead(writer);
    DecodedByType(reader.value, writer.value, LittleEndian(NumberBytes(writer)));
  }

  /** The values that survive: exactly the unsigned ones of the width, all 32-bit ones, `false`, and whole doubles. */
  lemma ReadBackExact(dataType: nat, v: Value)
    requires WellTyped(v) && TypeOf(v) == GTypeFor(dataType) && dataType != 0x9
    ensures ReadBack(dataType, v) == v <==>
            match v
            case BoolV(b) => !b
            case IntV(i) => Width(dataType) == 4 || 0 <= i < Modulus(Width(dataType))
            case UIntV(u) => u < Modulus(Width(dataType))
            case DoubleV(d) => 0.0 <= d < WORD as real && d == d.Floor as real
            case StrV(_) => false
  {
    var m := Modulus(Width(dataType));
    match v
    case BoolV(b) =>
    case IntV(i) => SignedWord(i, m);
    case UIntV(u) => UnsignedWord(u, m);
    case DoubleV(d) =>
      assert dataType == 0x8;
      DoubleWord(d);
    case StrV(_) => assert false;
  }

  lemma UnsignedWord(u: nat, m: nat)
    requires u < WORD && m in {0x100, 0x1_0000, WORD}
    ensures u % WORD % m == u <==> u < m
  {
  }

  lemma DoubleWord(d: real)
    ensures (Truncated(d) % WORD % WORD) as real == d <==> 0.0 <= d < WORD as real && d == d.Floor as real
  {
    var t := Truncated(d);
    if 0 <= t < WORD {
      assert t % WORD == t;
    }
  }

  lemma SignedWord(i: int, m: nat)
    requires -0x8000_0000 <= i < 0x8000_0000 && m in {0x100, 0x1_0000, WORD}
    ensures 0 <= i % WORD % m < WORD
    ensures Signed(i % WORD % m) == i <==> m == WORD || 0 <= i < m
  {
    assert i % WORD == if i >= 0 then i else i + WORD;
  }
}
