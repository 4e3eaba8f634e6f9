/**
 * When the shadow of the output register is right: what a load reads, which writes arrive, and why
 * the first word loaded must not look unset.
 */
module RegisterLimits {
  import opened Bytes
  import opened Wrappers
  import opened Values
  import opened Client
  import opened Transfers
  import opened ExpeditedTransfers
  import opened Panel
  import opened OutputRegister

  /** The word the index object holds from before, 0 when it is new. */
  function Stale(y: Board): bv32 {
    match y.entry.value
    case UIntV(u) => WordAt(u)
    case _ => 0
  }

  /** The frame that ends a load, if one does: the first that is no noise for the node. */
  function LoadFrame(y: Board, s: Session): Option<Frame> {
    if !s.requestOk then None
    else
      match EndedBy(OpenedBy(y.entry, ReadRequest(y.entry), y.server, s), READ_LIMIT, s.moves)
      case Some(Received(f, _, _)) => Some(f)
      case _ => None
  }

  /** The word such a frame makes of a load: its own if it carries one, else the one from before. */
  function LoadedFrom(y: Board, f: Frame): bv32 {
    if f.id < 0x700 && RouteOf(f.data[0], y.entry.dataType).Expedited? then WordAt(ExpeditedWord(f.data)) else Stale(y)
  }

  lemma RegisterNumber(y: Board)
    requires Wired(y)
    ensures LittleEndian(Held(y)) < WORD
    ensures y.entry.value.UIntV?
    ensures ReadingOf(Some(Decoded(y.entry.value, LittleEndian(Held(y))))) == Word(Register(y))
  {
    NumberArrives(y.entry, 0, CanFrame(ReplyId(y.entry.node), Reply(Held(y))), Held(y), true, 0);
  }

  function Reply(b: seq<byte>): (data: seq<byte>)
    requires 1 <= |b| <= 4
    ensures |data| == 8 && data[0] == 0x43 + 4 * (4 - |b|) && data[4..4 + |b|] == b
  {
    [0x43 + 4 * (4 - |b|), 0, 0, 0] + b + Zeros(4 - |b|)
  }

  /** What a load gives under any schedule, by the frame that ends it. */
  lemma LoadGives(y: Board, s: Session)
    requires Wired(y)
    ensures LoadReading(y, s) ==
            match LoadFrame(y, s)
            case None => NoReading
            case Some(f) => Word(LoadedFrom(y, f))
  {
    if s.requestOk {
      OutcomeIsTransaction(y.entry, ReadRequest(y.entry), READ_LIMIT, y.server, s);
      NumberEnds(OpenedBy(y.entry, ReadRequest(y.entry), y.server, s), READ_LIMIT, s.moves);
    }
  }

  /** The reply to the load itself makes it right. */
  lemma ReplyIsRight(y: Board, f: Frame)
    requires Wired(y) && f.id == ReplyId(y.entry.node)
    requires f.data[0] == 0x43 + 4 * (4 - |Held(y)|) && f.data[4..4 + |Held(y)|] == Held(y)
    ensures LoadedFrom(y, f) == Register(y)
  {
    WordOfResponse(f.data, Held(y));
    assert RouteOf(f.data[0], y.entry.dataType) == Expedited;
  }

  /**
   * Under every schedule a load reads the register, or fails, exactly unless the frame that ends it
   * makes another word of it: a late value of another entry, or the old word of the index object.
   */
  lemma LoadsRightExactly(y: Board, c: SetCall)
    requires Wired(y)
    ensures LoadsRight(y, c) <==>
            || y.shadow != UNSET || LoadFrame(y, c.load) == None
            || LoadedFrom(y, LoadFrame(y, c.load).value) == Register(y)
  {
    LoadGives(y, c.load);
  }

  /** An undisturbed load reads the register once its reply is delivered. */
  lemma UndisturbedLoad(y: Board, s: Session)
    requires Wired(y) && Undisturbed(y.entry, ReadRequest(y.entry), READ_LIMIT, y.server, s)
    ensures LoadReading(y, s) == if Own(s) > 0 then Word(Register(y)) else NoReading
  {
    RegisterNumber(y);
    NumberRead(y.entry, y.server, Held(y), s);
  }

  lemma ExpectedOne(x0: bv32, r: Request, i: bv32)
    requires i < 32
    ensures Expected(x0, [r], i) == if i == r.b then r.v else Bit(x0, i)
  {
    assert [r][..0] == [];
    assert LastValue([], i) == None;
  }

  lemma OneRequestAt(w: bv32, x0: bv32, r: Request, width: nat, i: bv32)
    requires r.b < 32 && i < Bits(width)
    ensures Bit(Cut(WithBit(w, r.b, r.v), width), i) == Expected(x0, [r], i) <==> i == r.b || Bit(w, i) == Bit(x0, i)
  {
    CutBit(WithBit(w, r.b, r.v), width, i);
    BitOfWithBit(w, r.b, r.v, i);
    ExpectedOne(x0, r, i);
  }

  /** Two words agree in the low bits, but for one. */
  ghost predicate AgreeBut(w: bv32, x0: bv32, width: nat, b: bv32) {
    forall i: bv32 :: i < Bits(width) ==> i == b || Bit(w, i) == Bit(x0, i)
  }

  lemma OneRequestRight(w: bv32, x: bv32, x0: bv32, r: Request, width: nat)
    requires r.b < 32 && x == Cut(WithBit(w, r.b, r.v), width) && AgreeBut(w, x0, width, r.b)
    ensures LowOverridden(x, x0, [r], width)
  {
    forall i: bv32 | i < Bits(width)
      ensures Bit(x, i) == Expected(x0, [r], i)
    {
      assert i == r.b || Bit(w, i) == Bit(x0, i);
      OneRequestAt(w, x0, r, width, i);
    }
  }

  lemma OneRequestWrong(w: bv32, x: bv32, x0: bv32, r: Request, width: nat)
    requires r.b < 32 && x == Cut(WithBit(w, r.b, r.v), width) && LowOverridden(x, x0, [r], width)
    ensures AgreeBut(w, x0, width, r.b)
  {
    forall i: bv32 | i < Bits(width)
      ensures i == r.b || Bit(w, i) == Bit(x0, i)
    {
      assert Bit(x, i) == Expected(x0, [r], i);
      OneRequestAt(w, x0, r, width, i);
    }
  }

  /**
   * A first call whose load is ended by `f`: the register becomes the word made of it, with the one bit
   * set.  That is right exactly when that word agrees with the register in all the other bits.
   */
  lemma WrongLoad(y: Board, c: SetCall, f: Frame)
    requires Fresh(y) && c.b < 32 && c.store.requestOk && LoadFrame(y, c.load) == Some(f)
    ensures var z := SetOutput(y, c);
            var width := Width(y.entry.dataType);
            && Register(z) == Cut(WithBit(LoadedFrom(y, f), c.b, c.v), width)
            && (LowOverridden(Register(z), Register(y), z.made, width) <==>
                AgreeBut(LoadedFrom(y, f), Register(y), width, c.b))
  {
    LoadGives(y, c.load);
    CallStep(y, c);
    var z := SetOutput(y, c);
    var r := Request(c.v, c.b, true);
    assert Start(y, c) == Some(LoadedFrom(y, f)) && z.made == [] + [r] == [r];
    WrongLoadIs(LoadedFrom(y, f), Register(z), Register(y), r, Width(y.entry.dataType));
  }

  lemma WrongLoadIs(w: bv32, x: bv32, x0: bv32, r: Request, width: nat)
    requires r.b < 32 && x == Cut(WithBit(w, r.b, r.v), width)
    ensures LowOverridden(x, x0, [r], width) <==> AgreeBut(w, x0, width, r.b)
  {
    if LowOverridden(x, x0, [r], width) {
      OneRequestWrong(w, x, x0, r, width);
    }
    if AgreeBut(w, x0, width, r.b) {
      OneRequestRight(w, x, x0, r, width);
    }
  }

  /**
   * An input: on a new index object a single heartbeat of any node before the reply, and the write
   * of one output switches all the others off.
   */
  lemma OutputsCleared(y: Board, c: SetCall, f: Frame, now: int, taken: bool, i: bv32)
    requires Fresh(y) && y.entry.value == UIntV(0) && c.b < 32 && c.store.requestOk
    requires f.id > 0x700 && c.load == Session(true, c.load.start, [], [Foreign(f, now, taken)])
    requires i < Bits(Width(y.entry.dataType)) && i != c.b
    ensures !Bit(Register(SetOutput(y, c)), i)
  {
    HeartbeatLoad(y, c.load, f, now, taken);
    WrongLoad(y, c, f);
    ClearBut(c.b, c.v, Width(y.entry.dataType), i);
  }

  lemma HeartbeatLoad(y: Board, s: Session, f: Frame, now: int, taken: bool)
    requires Wired(y) && y.entry.value == UIntV(0)
    requires f.id > 0x700 && s.requestOk && s.moves == [Foreign(f, now, taken)]
    ensures LoadFrame(y, s) == Some(f) && LoadedFrom(y, f) == 0
  {
    OutcomeIsTransaction(y.entry, ReadRequest(y.entry), READ_LIMIT, y.server, s);
    assert Next(OpenedBy(y.entry, ReadRequest(y.entry), y.server, s), READ_LIMIT, s.moves[0]).result != Waiting;
    assert WordAt(0) == 0;
  }

  lemma ClearBut(b: bv32, v: bool, width: nat, i: bv32)
    requires b < 32 && i < Bits(width) && i != b
    ensures !Bit(Cut(WithBit(0, b, v), width), i)
  {
    CutBit(WithBit(0, b, v), width, i);
    BitOfWithBit(0, b, v, i);
  }

  /** The word of the first load that succeeds. */
  function FirstWord(y: Board, cs: seq<SetCall>): Option<bv32>
    decreases |cs|
  {
    if cs == [] then None
    else
      match LoadFrame(y, cs[0].load)
      case Some(f) => Some(LoadedFrom(y, f))
      case None => FirstWord(AfterLoad(y, cs[0].load), cs[1..])
  }

  lemma {:induction false} LoadsBegin(y: Board, cs: seq<SetCall>)
    requires Wired(y) && y.shadow == UNSET && y.loads == [] && GoodCalls(cs)
    ensures match FirstWord(y, cs)
            case None => AfterCalls(y, cs).loads == []
            case Some(w) => AfterCalls(y, cs).loads != [] && AfterCalls(y, cs).loads[0] == w
    decreases |cs|
  {
    if cs != [] {
      LoadGives(y, cs[0].load);
      CallStep(y, cs[0]);
      if LoadFrame(y, cs[0].load) == None {
        LoadsBegin(SetOutput(y, cs[0]), cs[1..]);
      } else {
        LoadsGrow(SetOutput(y, cs[0]), cs[1..]);
      }
    }
  }

  /**
   * Any run, with any schedules: the register is right exactly when the word of the first load that
   * succeeds agrees with the register in every bit that no request has reached it for.
   */
  lemma RunRightExactly(y: Board, cs: seq<SetCall>)
    requires Fresh(y) && LowCalls(cs)
    requires FirstWord(y, cs).Some? ==> Distinct(FirstWord(y, cs).value)
    ensures var made := Effective(AfterCalls(y, cs).made);
            var width := Width(y.entry.dataType);
            LowOverridden(Register(AfterCalls(y, cs)), Register(y), made, width) <==>
            made != [] ==> FirstWord(y, cs).Some? && AgreeUntouched(FirstWord(y, cs).value, Register(y), made, width)
  {
    LoadsBegin(y, cs);
    ShadowHoldsAll(y, cs);
    var z := AfterCalls(y, cs);
    if Effective(z.made) == [] {
      Untouched(Register(y), Width(y.entry.dataType));
    } else {
      BaseMatters(Register(z), z.loads[0], Register(y), Effective(z.made), Width(y.entry.dataType));
    }
  }

  lemma Untouched(x: bv32, width: nat)
    ensures LowOverridden(x, x, [], width)
  {
    forall i: bv32 | i < Bits(width)
      ensures Bit(x, i) == Expected(x, [], i)
    {
      assert LastValue([], i) == None;
    }
  }

  /** Two words agree in the low bits no request was made for. */
  ghost predicate AgreeUntouched(w: bv32, x0: bv32, made: seq<Request>, width: nat) {
    forall i: bv32 :: i < Bits(width) && LastValue(made, i) == None ==> Bit(w, i) == Bit(x0, i)
  }

  lemma BaseMatters(x: bv32, base: bv32, x0: bv32, made: seq<Request>, width: nat)
    requires LowOverridden(x, base, made, width)
    ensures LowOverridden(x, x0, made, width) <==> AgreeUntouched(base, x0, made, width)
  {
    forall i: bv32 | i < Bits(width)
      ensures Bit(x, i) == Expected(x0, made, i) <==> (LastValue(made, i) == None ==> Bit(base, i) == Bit(x0, i))
    {
      assert Bit(x, i) == Expected(base, made, i);
    }
  }

  /**
   * Under every schedule a write assigns the register exactly if the bus takes the request; it returns
   * true exactly if a frame that is no noise for the node ends the call.  So a call that fails may have
   * changed the register, and one that succeeds always has.
   */
  lemma WriteReturns(y: Board, x: bv32, s: Session)
    requires Wired(y)
    ensures var st := y.entry.(value := ValueOf(x));
            var ended := EndedBy(OpenedBy(st, WriteRequest(st), y.server, s), WRITE_LIMIT, s.moves);
            && (Succeeds(StoreOutcome(y, x, s).result) <==> s.requestOk && ended.Some? && ended.value.Received?)
            && Register(AfterStore(y, x, s)) == if s.requestOk then Cut(x, Width(y.entry.dataType)) else Register(y)
  {
    Stores(y, x, s);
    var st := y.entry.(value := ValueOf(x));
    SameNumber(x);
    OutcomeIsTransaction(st, WriteRequest(st), WRITE_LIMIT, y.server, s);
    if s.requestOk {
      NumberEnds(OpenedBy(st, WriteRequest(st), y.server, s), WRITE_LIMIT, s.moves);
    }
  }

  /** A word written and read back is cut to the bits that reach the device. */
  lemma WordSurvives(y: Board, x: bv32, store: Session, load: Session)
    requires Wired(y) && store.requestOk
    requires var z := AfterStore(y, x, store);
             Undisturbed(z.entry, ReadRequest(z.entry), READ_LIMIT, z.server, load) && Own(load) > 0
    ensures LoadReading(AfterStore(y, x, store), load) == Word(Cut(x, Width(y.entry.dataType)))
  {
    Stores(y, x, store);
    UndisturbedLoad(AfterStore(y, x, store), load);
  }

  lemma TickEnds(w: World, limit: nat, now: int)
    requires w.result == Waiting && Expired(now - w.timer, limit)
    ensures Play(w, limit, [Tick(now)]) == w.(result := Failed)
  {
    var moves := [Tick(now)];
    var v := w.(result := Failed);
    assert Bus(limit)(w, moves[0]) == v;
    assert moves[1..] == [] && Play(v, limit, []) == v;
  }

  /** An input: the acknowledgement comes too late, the call fails, and the register has changed. */
  lemma LateAckChanges(y: Board, x: bv32, start: int, now: int)
    requires Wired(y) && Expired(now - start, WRITE_LIMIT)
    ensures var s := Session(true, start, [], [Tick(now)]);
            && StoreOutcome(y, x, s).result == Failed
            && Register(AfterStore(y, x, s)) == Cut(x, Width(y.entry.dataType))
  {
    var s := Session(true, start, [], [Tick(now)]);
    var st := y.entry.(value := ValueOf(x));
    Stores(y, x, s);
    OutcomeIsTransaction(st, WriteRequest(st), WRITE_LIMIT, y.server, s);
    TickEnds(OpenedBy(st, WriteRequest(st), y.server, s), WRITE_LIMIT, now);
  }
}
