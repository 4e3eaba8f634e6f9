/**
 * The outputs of a digital node and the register behind them: runs of single-bit writes, each a
 * session of the SDO client with the server that holds the register.
 */
module OutputRegister {
  import opened Bytes
  import opened Words
  import opened Wrappers
  import opened Values
  import opened Segmentation
  import opened Client
  import opened Traces
  import opened Server
  import opened Transfers
  import opened ExpeditedTransfers
  import opened Panel

  /** One call: the bit it sets, and what happens on the bus during its read, if there is one, and its write. */
  datatype SetCall = SetCall(v: bool, b: bv32, load: Session, store: Session)

  /**
   * The index object of the output entry, the shadow word, and the server; with the words loaded
   * from the device and the requests that were made so far.
   */
  datatype Board = Board(entry: IndexState, shadow: bv32, server: SdoServer, loads: seq<bv32>, made: seq<Request>)

  /** The bytes of the server's output entry. */
  function Held(y: Board): seq<byte> {
    if KeyOf(y.entry) in y.server.dictionary then y.server.dictionary[KeyOf(y.entry)].bytes else []
  }

  /** The register: the word a reading of these bytes gives. */
  function Register(y: Board): bv32 {
    WordAt(LittleEndian(Held(y)))
  }

  /** An unsigned entry of 8, 16 or 32 bits, of a node whose server has it. */
  predicate Wired(y: Board) {
    && ValidState(y.entry) && y.entry.dataType in {0x5, 0x6, 0x7} && 1 <= y.entry.node < 128
    && HasNumber(y.server, KeyOf(y.entry), Held(y))
  }

  predicate Fresh(y: Board) {
    Wired(y) && y.shadow == UNSET && y.loads == [] && y.made == []
  }

  /** What of a word reaches a device with an entry of `width` bytes. */
  function Cut(x: bv32, width: nat): bv32 {
    if width == 1 then x & 0xFF else if width == 2 then x & 0xFFFF else x
  }

  function Bits(width: nat): (n: bv32)
    ensures n <= 32
  {
    if width == 1 then 8 else if width == 2 then 16 else 32
  }

  lemma CutBit(x: bv32, width: nat, i: bv32)
    requires i < Bits(width)
    ensures Bit(Cut(x, width), i) == Bit(x, i)
  {
  }

  function LoadOutcome(y: Board, s: Session): World {
    Outcome(y.entry, ReadRequest(y.entry), READ_LIMIT, y.server, s)
  }

  /** What a caller gets that reads the entry. */
  function LoadReading(y: Board, s: Session): Reading {
    var w := LoadOutcome(y, s);
    ReadingOf(if Succeeds(w.result) then Some(w.st.value) else None)
  }

  function AfterLoad(y: Board, s: Session): Board {
    var w := LoadOutcome(y, s);
    y.(entry := w.st, server := w.server)
  }

  function StoreOutcome(y: Board, x: bv32, s: Session): World {
    var st := y.entry.(value := ValueOf(x));
    Outcome(st, WriteRequest(st), WRITE_LIMIT, y.server, s)
  }

  function AfterStore(y: Board, x: bv32, s: Session): Board {
    var w := StoreOutcome(y, x, s);
    y.(entry := w.st, server := w.server)
  }

  /** Bit `c.b` of `w` is changed and the word written; it is the shadow from then on. */
  function Change(y: Board, w: bv32, c: SetCall): Board
    requires c.b < 32
  {
    var x := WithBit(w, c.b, c.v);
    AfterStore(y, x, c.store).(shadow := x, made := y.made + [Request(c.v, c.b, c.store.requestOk)])
  }

  /** One call of `node_digital_object_set_value` on the bus. */
  function SetOutput(y: Board, c: SetCall): Board
    requires c.b < 32
  {
    if y.shadow != UNSET then Change(y, y.shadow, c)
    else
      var r := LoadReading(y, c.load);
      var z := AfterLoad(y, c.load);
      if r == NoReading then z
      else Change(z.(loads := z.loads + [Loaded(UNSET, r)]), Loaded(UNSET, r), c)
  }

  predicate GoodCalls(cs: seq<SetCall>) {
    forall k :: 0 <= k < |cs| ==> cs[k].b < 32
  }

  function AfterCalls(y: Board, cs: seq<SetCall>): Board
    requires GoodCalls(cs)
    decreases |cs|
  {
    if cs == [] then y else AfterCalls(SetOutput(y, cs[0]), cs[1..])
  }

  lemma OpenedServer(st: IndexState, request: Frame, server: SdoServer, x: Session)
    requires Serve(server, request.data).reply.Some?
    ensures OpenedBy(st, request, server, x).server == Serve(server, request.data).server
    ensures OpenedBy(st, request, server, x).st == st
  {
    LateInFront(st, request, server, x);
    OneExchange(World(Waiting, st, x.start, server, []), request);
  }

  /** A read of the entry leaves the dictionary alone, whatever the schedule. */
  lemma Loads(y: Board, s: Session)
    requires Wired(y)
    ensures var z := AfterLoad(y, s);
            && Wired(z) && SameEntry(z.entry, y.entry) && z.server.dictionary == y.server.dictionary
            && Held(z) == Held(y)
    ensures LoadReading(y, s) == NoReading || LoadReading(y, s).Word?
  {
    if s.requestOk {
      ServerSendsNumber(y.server, y.entry, Held(y));
      OpenedServer(y.entry, ReadRequest(y.entry), y.server, s);
      NumberIsolated(OpenedBy(y.entry, ReadRequest(y.entry), y.server, s), READ_LIMIT, s.moves);
    }
  }

  lemma SameNumber(x: bv32)
    ensures WordAt(x as nat) == x && x as nat < WORD
  {
  }

  lemma RemainderBelow(n: nat)
    requires n < WORD
    ensures n % WORD == n
  {
  }

  /** The bytes a word is written with stand for what of it reaches the device. */
  lemma WrittenBytes(st: IndexState, x: bv32, n: nat)
    requires st.value == ValueOf(x) == UIntV(n)
    ensures WordAt(LittleEndian(NumberBytes(st))) == Cut(x, Width(st.dataType))
  {
    BytesRead(st);
    SameNumber(x);
    RemainderBelow(n);
    CutNumber(x, n, Width(st.dataType));
  }

  lemma CutNumber(x: bv32, n: nat, width: nat)
    requires n == x as nat && n < WORD && width in {1, 2, 4}
    ensures WordAt(n % Modulus(width)) == Cut(x, width)
  {
    if width == 1 {
      MaskedWord(x);
      SameNumber(x & 0xFF);
    } else if width == 2 {
      MaskedWord(x);
      SameNumber(x & 0xFFFF);
    } else {
      RemainderBelow(n);
      SameNumber(x);
    }
  }

  /** What a write does to the index object and to the dictionary. */
  lemma StoresEntry(y: Board, x: bv32, s: Session)
    requires Wired(y)
    ensures var st := y.entry.(value := ValueOf(x));
            var z := AfterStore(y, x, s);
            && ValidState(z.entry) && SameEntry(z.entry, y.entry)
            && z.server.dictionary ==
               if s.requestOk then y.server.dictionary[KeyOf(y.entry) := Numeric(NumberBytes(st))]
               else y.server.dictionary
  {
    var st := y.entry.(value := ValueOf(x));
    if s.requestOk {
      ServerStores(st, y.server);
      OpenedServer(st, WriteRequest(st), y.server, s);
      NumberIsolated(OpenedBy(st, WriteRequest(st), y.server, s), WRITE_LIMIT, s.moves);
    }
  }

  lemma BytesHeld(y: Board, b: seq<byte>)
    requires KeyOf(y.entry) in y.server.dictionary && y.server.dictionary[KeyOf(y.entry)] == Numeric(b)
    ensures Held(y) == b && Register(y) == WordAt(LittleEndian(b))
  {
  }

  lemma ValueWritten(st: IndexState, x: bv32)
    requires st.value == ValueOf(x)
    ensures WordAt(LittleEndian(NumberBytes(st))) == Cut(x, Width(st.dataType))
  {
    WrittenBytes(st, x, st.value.u);
  }

  /** A write of the entry assigns it exactly if the bus takes the request, whatever the schedule. */
  lemma Stores(y: Board, x: bv32, s: Session)
    requires Wired(y)
    ensures var z := AfterStore(y, x, s);
            && Wired(z) && SameEntry(z.entry, y.entry)
            && z.server.dictionary ==
               (if s.requestOk then y.server.dictionary[KeyOf(y.entry) := Numeric(Held(z))] else y.server.dictionary)
            && Register(z) == if s.requestOk then Cut(x, Width(y.entry.dataType)) else Register(y)
  {
    var st := y.entry.(value := ValueOf(x));
    var z := AfterStore(y, x, s);
    StoresEntry(y, x, s);
    if s.requestOk {
      BytesHeld(z, NumberBytes(st));
      ValueWritten(st, x);
    } else {
      BytesHeld(z, Held(y));
    }
  }

  /** The word a call starts from. */
  function Start(y: Board, c: SetCall): Option<bv32> {
    if y.shadow != UNSET then Some(y.shadow)
    else
      match LoadReading(y, c.load)
      case Word(w) => Some(w)
      case _ => None
  }

  /** The board when a call comes to write. */
  function Begun(y: Board, c: SetCall): Board {
    if y.shadow != UNSET then y else AfterLoad(y, c.load)
  }

  /** What a call that starts from `start` does to the board. */
  predicate Stepped(y: Board, c: SetCall, start: Option<bv32>, z: Board)
    requires c.b < 32
  {
    && Wired(z) && SameEntry(z.entry, y.entry)
    && (y.shadow != UNSET ==> start == Some(y.shadow))
    && match start
       case None =>
         && z.shadow == y.shadow && z.loads == y.loads && z.made == y.made
         && z.server.dictionary == y.server.dictionary && Register(z) == Register(y)
       case Some(w) =>
         && z.shadow == WithBit(w, c.b, c.v)
         && z.loads == (if y.shadow != UNSET then y.loads else y.loads + [w])
         && z.made == y.made + [Request(c.v, c.b, c.store.requestOk)]
         && if c.store.requestOk then
              && z.server.dictionary == y.server.dictionary[KeyOf(y.entry) := Numeric(Held(z))]
              && Register(z) == Cut(WithBit(w, c.b, c.v), Width(y.entry.dataType))
            else z.server.dictionary == y.server.dictionary && Register(z) == Register(y)
  }

  lemma CallStep(y: Board, c: SetCall)
    requires Wired(y) && c.b < 32
    ensures Stepped(y, c, Start(y, c), SetOutput(y, c))
  {
    if y.shadow != UNSET {
      Stores(y, WithBit(y.shadow, c.b, c.v), c.store);
    } else {
      Loads(y, c.load);
      var r := LoadReading(y, c.load);
      if r.Word? {
        var z := AfterLoad(y, c.load).(loads := y.loads + [r.w]);
        Stores(z, WithBit(r.w, c.b, c.v), c.store);
      }
    }
  }

  /** A load, if the call makes one and it succeeds, gives the word of the register. */
  predicate LoadsRight(y: Board, c: SetCall) {
    y.shadow == UNSET ==> LoadReading(y, c.load) in {NoReading, Word(Register(y))}
  }

  predicate RightLoads(y: Board, cs: seq<SetCall>)
    requires GoodCalls(cs)
    decreases |cs|
  {
    cs == [] || (LoadsRight(y, cs[0]) && RightLoads(SetOutput(y, cs[0]), cs[1..]))
  }

  predicate AllSent(cs: seq<SetCall>) {
    forall k :: 0 <= k < |cs| ==> cs[k].store.requestOk
  }

  /** In the bits that reach the device `x` is `x0` overridden by the requests. */
  ghost predicate LowOverridden(x: bv32, x0: bv32, made: seq<Request>, width: nat) {
    forall i: bv32 :: i < Bits(width) ==> Bit(x, i) == Expected(x0, made, i)
  }

  lemma LowNext(w: bv32, x0: bv32, made: seq<Request>, r: Request, width: nat)
    requires r.b < 32 && LowOverridden(w, x0, made, width)
    ensures LowOverridden(WithBit(w, r.b, r.v), x0, made + [r], width)
    ensures LowOverridden(Cut(WithBit(w, r.b, r.v), width), x0, made + [r], width)
  {
    forall i: bv32 | i < Bits(width)
      ensures Bit(WithBit(w, r.b, r.v), i) == Expected(x0, made + [r], i)
      ensures Bit(Cut(WithBit(w, r.b, r.v), width), i) == Expected(x0, made + [r], i)
    {
      assert Bit(w, i) == Expected(x0, made, i);
      ExpectedNext(w, x0, made, r, i);
      CutBit(WithBit(w, r.b, r.v), width, i);
    }
  }

  /** The register, and the shadow if it is set, are the first value overridden by the requests. */
  ghost predicate Tracks(y: Board, x0: bv32) {
    && LowOverridden(Register(y), x0, y.made, Width(y.entry.dataType))
    && (y.shadow != UNSET ==> LowOverridden(y.shadow, x0, y.made, Width(y.entry.dataType)))
  }

  lemma TracksNext(y: Board, c: SetCall, start: Option<bv32>, z: Board, x0: bv32)
    requires c.b < 32 && Stepped(y, c, start, z) && Tracks(y, x0) && c.store.requestOk
    requires y.shadow == UNSET && start.Some? ==> start.value == Register(y)
    ensures Tracks(z, x0)
  {
    if start.Some? {
      LowNext(start.value, x0, y.made, Request(c.v, c.b, true), Width(y.entry.dataType));
    }
  }

  lemma {:induction false} StaysTracked(y: Board, cs: seq<SetCall>, x0: bv32)
    requires Wired(y) && GoodCalls(cs) && AllSent(cs) && RightLoads(y, cs) && Tracks(y, x0)
    ensures Wired(AfterCalls(y, cs)) && SameEntry(AfterCalls(y, cs).entry, y.entry) && Tracks(AfterCalls(y, cs), x0)
    decreases |cs|
  {
    if cs != [] {
      CallStep(y, cs[0]);
      TracksNext(y, cs[0], Start(y, cs[0]), SetOutput(y, cs[0]), x0);
      StaysTracked(SetOutput(y, cs[0]), cs[1..], x0);
    }
  }

  /**
   * While the bus takes every write and every load reads the register, the register follows the
   * requests in all the bits that reach it, whatever its first value, whichever of the 32 bits are
   * written, whatever happens to the replies of the writes, and however often the shadow falls back
   * on its unset value.
   */
  lemma RegisterFollows(y: Board, cs: seq<SetCall>)
    requires Fresh(y) && GoodCalls(cs) && AllSent(cs) && RightLoads(y, cs)
    ensures var z := AfterCalls(y, cs);
            LowOverridden(Register(z), Register(y), z.made, Width(y.entry.dataType))
  {
    StaysTracked(y, cs, Register(y));
  }

  predicate LowCalls(cs: seq<SetCall>) {
    forall k :: 0 <= k < |cs| ==> cs[k].b < 16
  }

  /** The entry is the first word loaded, overridden by the requests up to the last one the bus took. */
  ghost predicate RegisterKept(y: Board, z: Board) {
    if Effective(z.made) == [] then z.server.dictionary == y.server.dictionary && Register(z) == Register(y)
    else
      && z.server.dictionary == y.server.dictionary[KeyOf(y.entry) := Numeric(Held(z))]
      && z.loads != []
      && LowOverridden(Register(z), z.loads[0], Effective(z.made), Width(y.entry.dataType))
  }

  /** After at most one load, the shadow is the word loaded, overridden by all requests. */
  ghost predicate ShadowKept(z: Board) {
    if z.loads == [] then z.made == [] && z.shadow == UNSET
    else |z.loads| == 1 && z.made != [] && Overridden(z.shadow, z.loads[0], z.made)
  }

  ghost predicate Keeps(y: Board, z: Board) {
    && Wired(z) && SameEntry(z.entry, y.entry) && ShadowKept(z) && RegisterKept(y, z)
    && (z.loads != [] ==> Distinct(z.shadow))
  }

  lemma KeepsShadow(y: Board, z: Board, c: SetCall, start: Option<bv32>, v: Board)
    requires Keeps(y, z) && c.b < 16 && Stepped(z, c, start, v) && (v.loads != [] ==> Distinct(v.loads[0]))
    ensures ShadowKept(v) && (v.loads != [] ==> Distinct(v.shadow))
    ensures start.Some? ==> v.loads != [] && (z.loads != [] ==> v.loads[0] == z.loads[0])
  {
    if z.loads != [] {
      DistinctIsSet(z.shadow);
    }
    if start.Some? {
      OverrideNext(start.value, v.loads[0], z.made, Request(c.v, c.b, c.store.requestOk));
      HighHalfStays(start.value, c.b, c.v);
    }
  }

  lemma RegisterSent(x: bv32, base: bv32, made: seq<Request>, width: nat)
    requires Overridden(x, base, made)
    ensures LowOverridden(Cut(x, width), base, made, width)
  {
    forall i: bv32 | i < Bits(width)
      ensures Bit(Cut(x, width), i) == Expected(base, made, i)
    {
      CutBit(x, width, i);
      assert Bit(x, i) == Expected(base, made, i);
    }
  }

  lemma KeepsRegister(y: Board, z: Board, c: SetCall, start: Option<bv32>, v: Board)
    requires Keeps(y, z) && c.b < 16 && Stepped(z, c, start, v) && (v.loads != [] ==> Distinct(v.loads[0]))
    ensures RegisterKept(y, v)
  {
    KeepsShadow(y, z, c, start, v);
    if start.Some? {
      EffectiveNext(z.made, Request(c.v, c.b, c.store.requestOk));
      if c.store.requestOk {
        RegisterSent(v.shadow, v.loads[0], v.made, Width(y.entry.dataType));
      }
    }
  }

  lemma {:induction false} LoadsGrow(y: Board, cs: seq<SetCall>)
    requires GoodCalls(cs)
    ensures y.loads <= AfterCalls(y, cs).loads
    decreases |cs|
  {
    if cs != [] {
      assert y.loads <= SetOutput(y, cs[0]).loads;
      LoadsGrow(SetOutput(y, cs[0]), cs[1..]);
    }
  }

  lemma {:induction false} StaysKept(y: Board, z: Board, cs: seq<SetCall>)
    requires Keeps(y, z) && LowCalls(cs)
    requires AfterCalls(z, cs).loads != [] ==> Distinct(AfterCalls(z, cs).loads[0])
    ensures Keeps(y, AfterCalls(z, cs))
    decreases |cs|
  {
    if cs != [] {
      var v := SetOutput(z, cs[0]);
      LoadsGrow(v, cs[1..]);
      CallStep(z, cs[0]);
      KeepsShadow(y, z, cs[0], Start(z, cs[0]), v);
      KeepsRegister(y, z, cs[0], Start(z, cs[0]), v);
      StaysKept(y, v, cs[1..]);
    }
  }

  /**
   * Any run of single-bit writes, with any schedules: frames of any kind, resets, time-outs, replies
   * that are lost, writes the bus refuses.  If the first word loaded has a high half that is not all
   * ones and only the 16 output bits are written, the device is read at most once, the shadow is that
   * word overridden by every request, and the entry is that word overridden by the requests up to the
   * last one the bus took, in all the bits that reach it; no other entry changes.  So a refused bit
   * goes out with the next write.
   */
  lemma ShadowHoldsAll(y: Board, cs: seq<SetCall>)
    requires Fresh(y) && LowCalls(cs)
    requires AfterCalls(y, cs).loads != [] ==> Distinct(AfterCalls(y, cs).loads[0])
    ensures ShadowKept(AfterCalls(y, cs)) && RegisterKept(y, AfterCalls(y, cs))
  {
    assert y.server.dictionary == y.server.dictionary;
    StaysKept(y, y, cs);
  }
}
