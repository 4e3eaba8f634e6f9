/**
 * The SDO client as a state machine over bus events: the specification of
 * `node_device_process_index` and of the two loops around it.
 */
module Client {
  import opened Bytes
  import opened Values
  import opened Segmentation
  import Address

  datatype CanFrame = CanFrame(id: nat, data: seq<byte>)

  type Frame = f: CanFrame | |f.data| == 8 witness CanFrame(0, Zeros(8))

  function NodeOf(f: Frame): (n: nat)
    ensures n < 128
  {
    f.id % 128
  }

  /** `PROCESS_INDEX_...`, and a null access as a fifth outcome. */
  datatype Class = Done | RestartTimer | Busy | NodeReseted | Crashed

  /** What processing one frame gives: its class, the new index state, and the frames sent. */
  datatype Processed = Processed(class_: Class, st: IndexState, sent: seq<Frame>)

  /** COB-ID of requests to the node. */
  function RequestId(node: nat): nat {
    0x600 + node % 128
  }

  /** A toggle answer as a classified frame; `refused` is the class when the bus write fails. */
  function Answered(st: IndexState, data: seq<byte>, writeOk: bool, refused: Class): (p: Processed)
    requires |data| == 8
  {
    match ToggleStep(st, data)
    case Crash => Processed(Crashed, st, [])
    case Stop(st') => Processed(Done, st', [])
    case Send(st', reply) =>
      if writeOk then Processed(RestartTimer, st', [CanFrame(RequestId(st.node), reply)])
      else Processed(refused, st', [])
  }

  /** The expedited word of an upload response, by the count bits of its command byte. */
  function ExpeditedWord(data: seq<byte>): (w: nat)
    requires |data| == 8
    ensures w < WORD
  {
    match data[0] / 4 % 4
    case 3 => data[4]
    case 2 => data[4] as int + 0x100 * data[5] as int
    case 1 => data[4] as int + 0x100 * data[5] as int + 0x1_0000 * data[6] as int
    case _ => data[4] as int + 0x100 * data[5] as int + 0x1_0000 * data[6] as int + 0x100_0000 * data[7] as int
  }

  /**
   * What a server frame is taken for: part of a segmented transfer (with the class to report when
   * the bus refuses the answer), an expedited value, a mere acknowledgement, or nothing.
   */
  datatype Route = Segmented(refused: Class) | Expedited | Acknowledged | Ignored

  function RouteOf(typ: byte, dataType: nat): Route {
    match typ / 32
    case 0 => Segmented(Done)
    case 1 => Segmented(Done)
    case 2 => if typ / 2 % 2 == 1 then Expedited else if typ % 2 == 1 then Segmented(Busy) else Acknowledged
    case 3 => if dataType == 0x9 || (typ % 2 == 1 && typ / 2 % 2 == 0) then Segmented(Done) else Acknowledged
    case _ => Ignored
  }

  /** A frame from the server of the node this transaction talks to. */
  function FromServer(st: IndexState, data: seq<byte>, writeOk: bool): (p: Processed)
    requires |data| == 8
  {
    match RouteOf(data[0], st.dataType)
    case Segmented(refused) => Answered(st, data, writeOk, refused)
    case Expedited => Processed(Done, st.(value := Decoded(st.value, ExpeditedWord(data))), [])
    case Acknowledged => Processed(Done, st, [])
    case Ignored => Processed(Busy, st, [])
  }

  /** `node_device_process_index`. */
  function Process(st: IndexState, f: Frame, writeOk: bool): Processed {
    if 0x580 < f.id < 0x700 then
      if st.node != NodeOf(f) then Processed(Busy, st, []) else FromServer(st, f.data, writeOk)
    else if f.id > 0x700 then
      Processed(if 0 < NodeOf(f) < 124 then NodeReseted else Done, st, [])
    else Processed(Busy, st, [])
  }

  /**
   * One pass of a loop.  `Received`: a frame was read, the bus accepts a reply or not, and the
   * pass ends at `now`.  `Idle`: no frame was there when the pass began at `now`.
   */
  datatype Event =
    | Received(frame: Frame, writeOk: bool, now: int)
    | Idle(now: int)

  /** `Waiting` means that the loop is still running. */
  datatype LoopResult = Completed | Reseted(id: nat) | Failed | Faulted | Waiting

  /** The test on the two results of `g_timer_elapsed`, for an elapsed time in microseconds. */
  predicate Expired(elapsed: int, limit: nat) {
    elapsed > 1_000_000 || elapsed % 1_000_000 > limit
  }

  datatype Pass = Pass(result: LoopResult, st: IndexState, timer: int, sent: seq<Frame>)

  /** One pass of a loop whose timer was last started at `timer`. */
  function OnePass(st: IndexState, timer: int, limit: nat, e: Event): Pass {
    match e
    case Idle(now) => Pass(if Expired(now - timer, limit) then Failed else Waiting, st, timer, [])
    case Received(f, writeOk, now) =>
      var p := Process(st, f, writeOk);
      match p.class_
      case Done => Pass(Completed, p.st, timer, p.sent)
      case RestartTimer => Pass(Waiting, p.st, now, p.sent)
      case Busy => Pass(Waiting, p.st, timer, p.sent)
      case NodeReseted => Pass(Reseted(f.id), p.st, timer, p.sent)
      case Crashed => Pass(Faulted, p.st, timer, p.sent)
  }

  /** How a loop stands after a trace: `consumed` events were looked at. */
  datatype Run = Run(result: LoopResult, st: IndexState, timer: int, sent: seq<Frame>, consumed: nat)

  function After(sent: seq<Frame>, n: nat, r: Run): Run {
    r.(sent := sent + r.sent, consumed := n + r.consumed)
  }

  /** The loop over a trace of events; it stops at the first pass with a result. */
  function Loop(st: IndexState, timer: int, limit: nat, events: seq<Event>): (r: Run)
    ensures r.consumed <= |events|
    decreases |events|
  {
    if events == [] then Run(Waiting, st, timer, [], 0)
    else
      var p := OnePass(st, timer, limit, events[0]);
      if p.result != Waiting then Run(p.result, p.st, p.timer, p.sent, 1)
      else After(p.sent, 1, Loop(p.st, p.timer, limit, events[1..]))
  }

  lemma Concatenation(a: seq<Frame>, b: seq<Frame>, c: seq<Frame>)
    ensures a + b + c == a + (b + c)
  {
  }

  /** `r` is how the loop stands after its first `r.consumed` events. */
  ghost predicate LoopAt(st: IndexState, start: int, limit: nat, events: seq<Event>, r: Run) {
    && r.consumed <= |events|
    && Loop(st, start, limit, events) ==
       if r.result == Waiting then After(r.sent, r.consumed, Loop(r.st, r.timer, limit, events[r.consumed..]))
       else r
  }

  lemma LoopBegins(st: IndexState, start: int, limit: nat, events: seq<Event>)
    ensures LoopAt(st, start, limit, events, Run(Waiting, st, start, [], 0))
  {
    assert events[0..] == events;
  }

  lemma LoopTurns(st: IndexState, start: int, limit: nat, events: seq<Event>, r: Run)
    requires LoopAt(st, start, limit, events, r) && r.result == Waiting && r.consumed < |events|
    ensures var p := OnePass(r.st, r.timer, limit, events[r.consumed]);
            LoopAt(st, start, limit, events, Run(p.result, p.st, p.timer, r.sent + p.sent, r.consumed + 1))
  {
    var i := r.consumed;
    var p := OnePass(r.st, r.timer, limit, events[i]);
    var rest := Loop(p.st, p.timer, limit, events[i + 1..]);
    assert events[i..][1..] == events[i + 1..];
    Concatenation(r.sent, p.sent, rest.sent);
  }

  const READ_LIMIT := 200_000
  const WRITE_LIMIT := 100_000

  function Request(st: IndexState, command: byte, word: nat): Frame {
    CanFrame(RequestId(st.node), [command] + Address.Packed(st.index, st.subindex) + Word4(word))
  }

  /** What a server reads from a request. */
  lemma RequestReads(st: IndexState, command: byte, word: nat)
    ensures Address.Unpacked(Request(st, command, word).data) == (st.index % 0x1_0000, st.subindex % 0x100)
    ensures Request(st, command, word).data[0] == command
    ensures Request(st, command, word).data[4..] == Word4(word)
    ensures word < WORD ==> LittleEndian(Request(st, command, word).data[4..]) == word
  {
    Address.PackingKeeps(st.index, st.subindex);
    var d := Request(st, command, word).data;
    assert d[1..4] == Address.Packed(st.index, st.subindex);
    assert d[4..] == Word4(word);
    Word4Prefix(word);
    assert Word4(word)[..4] == Word4(word);
  }

  /** The initiate upload request. */
  function ReadRequest(st: IndexState): Frame {
    Request(st, 0x40, 0)
  }

  /** The bytes a value of a data type occupies on the bus, for all types but strings. */
  function Width(dataType: nat): (w: nat)
    ensures w in {1, 2, 4}
    ensures w == 1 <==> dataType in {0x1, 0x2, 0x5}
    ensures w == 2 <==> dataType in {0x3, 0x6}
  {
    match dataType
    case 0x1 => 1
    case 0x2 => 1
    case 0x3 => 2
    case 0x5 => 1
    case 0x6 => 2
    case _ => 4
  }

  /**
   * The command byte of an initiate download request after CiA 301: command 1 in the upper three
   * bits, the unused count, and the bits for expedited transfer and indicated size; a string is not
   * expedited.
   */
  function WriteCommand(dataType: nat): byte {
    if dataType == 0x9 then 0x20 + 1 else 0x20 + 4 * (4 - Width(dataType)) + 2 + 1
  }

  /** The bits of the command byte: command, unused count, expedited and size indicated. */
  lemma CommandMatchesWidth(dataType: nat)
    ensures WriteCommand(dataType) / 32 == 1
    ensures dataType == 0x9 ==> WriteCommand(dataType) % 4 == 1
    ensures dataType != 0x9 ==>
              WriteCommand(dataType) % 4 == 3 && WriteCommand(dataType) / 4 % 4 == 4 - Width(dataType)
  {
  }

  /** The initiate download request. */
  function WriteRequest(st: IndexState): Frame {
    Request(st, WriteCommand(st.dataType), Encoded(st.value))
  }

  /**
   * What the outside does during one call: the frames waiting on the bus when it begins, whether
   * the request is accepted by the bus, the time its timer starts, and the passes of its loop.
   * After the last event the bus stays silent, so that a loop still waiting then runs into its
   * time limit.
   */
  datatype Exchange = Exchange(queue: seq<Frame>, requestOk: bool, start: int, events: seq<Event>)

  /** A transaction: send the request, then run the loop. */
  function Transact(st: IndexState, request: Frame, limit: nat, x: Exchange): Run {
    if !x.requestOk then Run(Failed, st, x.start, [], 0)
    else After([request], 0, Loop(st, x.start, limit, x.events))
  }

  function ReadRun(st: IndexState, x: Exchange): Run {
    Transact(st, ReadRequest(st), READ_LIMIT, x)
  }

  function WriteRun(st: IndexState, x: Exchange): Run {
    Transact(st, WriteRequest(st), WRITE_LIMIT, x)
  }

  /** The boolean a read or write call returns. */
  predicate Succeeds(result: LoopResult) {
    result.Completed? || result.Reseted?
  }
}
