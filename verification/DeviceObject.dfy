/** The CAN device: draining the bus, and the transactions that read and write one index object. */
module DeviceObject {
  import opened Bytes
  import opened Values
  import opened Client
  import opened Resets
  import opened IndexObject
  import opened Traces
  import Address

  class NodeDeviceObject {
    var isOpen: bool
    /** The file descriptor of the bus. */
    var fd: int
    /** The frames written to the bus. */
    var sent: seq<Frame>
    /** The signals "node-reseted" emitted, and the property that goes with them. */
    var reseted: seq<nat>
    var resetedNode: nat

    constructor ()
      ensures !isOpen && sent == [] && reseted == []
    {
      isOpen, fd := false, 0;
      sent, reseted, resetedNode := [], [], 0;
    }

    /**
     * `node_device_object_open`.  `found` tells whether the device file exists and `descriptor` is what
     * opening it gives; without the file a descriptor opened before stays in use.
     */
    method Open(found: bool, descriptor: int) returns (ok: bool)
      modifies this`isOpen, this`fd
      ensures fd == if found then descriptor else old(fd)
      ensures ok == isOpen == (fd > 0)
    {
      isOpen := false;
      if found {
        fd := descriptor;
      }
      if fd <= 0 {
        return false;
      }
      isOpen := true;
      ok := true;
    }

    method BroadcastNodeReset(node: nat)
      modifies this`reseted, this`resetedNode
      ensures reseted == old(reseted) + [node] && resetedNode == node
    {
      resetedNode := node;
      reseted := reseted + [node];
    }

    /** `node_read_system_message`: empties the queue and reports the resets found in it. */
    method ReadSystemMessage(queue: seq<Frame>)
      modifies this`reseted, this`resetedNode
      ensures reseted == old(reseted) + Reports(queue)
    {
      var noden := new nat[NODE_COUNT](_ => 0);
      var k := 0;
      while k < |queue|
        invariant k <= |queue|
        invariant reseted == old(reseted) + NodesAt(queue, Reported(queue, k))
        invariant noden[0] == 0
        invariant forall n :: 1 <= n < NODE_COUNT ==>
                    (noden[n] != 0 <==> exists j :: 0 <= j < k && Announces(queue[j], n))
      {
        var rxmsg := queue[k];
        var node := NodeOf(rxmsg);
        ghost var before := Reported(queue, k);
        assert NodesAt(queue, before + [k]) == NodesAt(queue, before) + [node];
        assert before + [] == before;
        if 0x700 < rxmsg.id < 0x800 {
          if node < NODE_COUNT && noden[node] == 0 {
            BroadcastNodeReset(node);
            noden[node] := node;
          }
        }
        k := k + 1;
      }
    }

    /** `node_device_process_index`. */
    method ProcessIndex(index: NodeIndexObject, rxmsg: Frame, writeOk: bool) returns (c: Class)
      requires index.Valid()
      modifies index`stringValue, index`internalValue, index`toggleByte, index`len, this`sent
      ensures index.Valid()
      ensures var p := Process(old(index.State()), rxmsg, writeOk);
              c == p.class_ && index.State() == p.st && sent == old(sent) + p.sent
    {
      if rxmsg.id < 0x700 && rxmsg.id > 0x580 {
        var typ := rxmsg.data[0];
        if index.node != NodeOf(rxmsg) {
          return Busy;
        }
        match typ / 32
        case 0 =>
          c := Answer(index, rxmsg, writeOk, Done);
          return;
        case 1 =>
          c := Answer(index, rxmsg, writeOk, Done);
          return;
        case 2 =>
          if typ / 2 % 2 == 1 {
            var value := ExpeditedWord(rxmsg.data);
            var _ := index.SetValue32(value);
            return Done;
          } else if typ % 2 == 1 {
            c := Answer(index, rxmsg, writeOk, Busy);
            return;
          }
          return Done;
        case 3 =>
          if index.dataType == 0x9 || (typ % 2 == 1 && typ / 2 % 2 == 0) {
            c := Answer(index, rxmsg, writeOk, Done);
            return;
          }
          return Done;
        case _ =>
      } else if rxmsg.id > 0x700 {
        if 0 < NodeOf(rxmsg) < 124 {
          return NodeReseted;
        }
        return Done;
      }
      return Busy;
    }

    /** Hands a frame to the index object and sends the answer it asks for. */
    method Answer(index: NodeIndexObject, rxmsg: Frame, writeOk: bool, refused: Class) returns (c: Class)
      requires index.Valid()
      modifies index`stringValue, index`internalValue, index`toggleByte, index`len, this`sent
      ensures index.Valid()
      ensures var p := Answered(old(index.State()), rxmsg.data, writeOk, refused);
              c == p.class_ && index.State() == p.st && sent == old(sent) + p.sent
    {
      var data := new byte[8](_ => 0);
      var verdict := index.Toggle(rxmsg.data, data);
      match verdict
      case Fault => return Crashed;
      case Final => return Done;
      case More =>
        if writeOk {
          sent := sent + [CanFrame(RequestId(index.node), data[..])];
          return RestartTimer;
        }
        return refused;
    }

    /** One pass of a transaction loop. */
    method RunPass(index: NodeIndexObject, timer: int, limit: nat, e: Event) returns (result: LoopResult, timer': int)
      requires index.Valid()
      modifies index`stringValue, index`internalValue, index`toggleByte, index`len, this`sent
      ensures index.Valid()
      ensures var p := OnePass(old(index.State()), timer, limit, e);
              result == p.result && timer' == p.timer && index.State() == p.st && sent == old(sent) + p.sent
    {
      result, timer' := Waiting, timer;
      match e
      case Received(rxmsg, writeOk, now) =>
        var ret := ProcessIndex(index, rxmsg, writeOk);
        match ret {
          case Done => result := Completed;
          case RestartTimer => timer' := now;
          case Busy =>
          case NodeReseted => result := Reseted(rxmsg.id);
          case Crashed => result := Faulted;
        }
      case Idle(now) =>
        if Expired(now - timer, limit) {
          result := Failed;
        }
    }

    /** The loop of a transaction, whose timer was started at `start`. */
    method RunLoop(index: NodeIndexObject, start: int, limit: nat, events: seq<Event>)
      returns (result: LoopResult, ghost consumed: nat)
      requires index.Valid()
      modifies index`stringValue, index`internalValue, index`toggleByte, index`len, this`sent
      ensures index.Valid()
      ensures var r := Loop(old(index.State()), start, limit, events);
              result == r.result && index.State() == r.st && sent == old(sent) + r.sent && consumed == r.consumed
    {
      var timer := start;
      result := Waiting;
      var i := 0;
      ghost var st := index.State();
      ghost var log := [];
      LoopBegins(st, start, limit, events);
      while result == Waiting && i < |events|
        invariant i <= |events| && index.Valid() && index.State() == st && sent == old(sent) + log
        invariant LoopAt(old(index.State()), start, limit, events, Run(result, st, timer, log, i))
      {
        LoopTurns(old(index.State()), start, limit, events, Run(result, st, timer, log, i));
        ghost var p := OnePass(st, timer, limit, events[i]);
        Concatenation(old(sent), log, p.sent);
        result, timer := RunPass(index, timer, limit, events[i]);
        st, log, i := p.st, log + p.sent, i + 1;
      }
      consumed := i;
    }

    /**
     * `read_index`: asks for the value and waits until it is there.  A tick later than 200 ms after the
     * last restart of the timer fails it.
     */
    method RequestAndRead(index: NodeIndexObject, x: Exchange) returns (result: LoopResult, ghost consumed: nat)
      requires index.Valid()
      modifies index`stringValue, index`internalValue, index`toggleByte, index`len, this`sent
      ensures index.Valid()
      ensures var r := ReadRun(old(index.State()), x);
              result == r.result && index.State() == r.st && sent == old(sent) + r.sent && consumed == r.consumed
      ensures x.requestOk ==>
                && |sent| > |old(sent)| && AsksFor(sent[|old(sent)|], index.node, index.index, index.subindex)
                && KeepsLimit(old(index.State()), x.start, 200_000, x.events, Succeeds(result), consumed)
    {
      ReadOnBus(index.State(), x);
      if !x.requestOk {
        return Failed, 0;
      }
      var request := ReadRequest(index.State());
      ghost var r := Loop(index.State(), x.start, READ_LIMIT, x.events);
      Concatenation(old(sent), [request], r.sent);
      sent := sent + [request];
      result, consumed := RunLoop(index, x.start, READ_LIMIT, x.events);
    }

    /**
     * `node_device_object_read_index`.  The resets reported are the ones drained and then the one that
     * ended the call, if one did.
     */
    method ReadIndex(index: NodeIndexObject, x: Exchange) returns (ok: bool, ghost consumed: nat)
      requires index.Valid()
      modifies index`stringValue, index`internalValue, index`toggleByte, index`len
      modifies this`sent, this`reseted, this`resetedNode
      ensures index.Valid()
      ensures !isOpen ==> !ok && unchanged(this) && unchanged(index)
      ensures isOpen ==>
                var r := ReadRun(old(index.State()), x);
                && ok == Succeeds(r.result) && index.State() == r.st && consumed == r.consumed <= |x.events|
                && sent == old(sent) + r.sent
                && reseted == old(reseted) + Reports(x.queue) + EndingReset(x.events, consumed)
      ensures isOpen && x.requestOk ==>
                && |sent| > |old(sent)| && AsksFor(sent[|old(sent)|], index.node, index.index, index.subindex)
                && KeepsLimit(old(index.State()), x.start, 200_000, x.events, ok, consumed)
    {
      if !isOpen {
        return false, 0;
      }
      ReadOnBus(index.State(), x);
      ReadSystemMessage(x.queue);
      var result;
      result, consumed := RequestAndRead(index, x);
      match result
      case Completed => return true, consumed;
      case Reseted(id) =>
        BroadcastNodeReset(id % 128);
        return true, consumed;
      case _ => return false, consumed;
    }

    /**
     * The request that opens a write: for the table of data types in the body the command byte has
     * command 1, and for all but strings the bits for an expedited transfer with indicated size and
     * the unused count that goes with the width of the type; a server reads the address of the entry
     * and the number of the value, or the declared size of a string, from it.
     */
    method InitiateDownload(index: NodeIndexObject) returns (cm: Frame)
      requires index.Valid()
      ensures cm.id == 0x600 + index.node % 128 && cm.data[0] / 32 == 1
      ensures if index.dataType == 0x9 then cm.data[0] % 4 == 1
              else cm.data[0] % 4 == 3 && cm.data[0] / 4 % 4 == 4 - Width(index.dataType)
      ensures Address.Unpacked(cm.data) == (index.index % 0x1_0000, index.subindex % 0x100)
      ensures RequestWord(LittleEndian(cm.data[4..]), index.internalValue)
      ensures cm == WriteRequest(index.State())
    {
      var command: byte;
      match index.dataType {
        case 0x1 => command := 0x2F;
        case 0x2 => command := 0x2F;
        case 0x3 => command := 0x2B;
        case 0x4 => command := 0x23;
        case 0x5 => command := 0x2F;
        case 0x6 => command := 0x2B;
        case 0x7 => command := 0x23;
        case 0x8 => command := 0x23;
        case 0x9 => command := 0x21;
        case _ => command := 0x23;
      }
      assert command == WriteCommand(index.dataType);
      CommandMatchesWidth(index.dataType);
      var value := index.Value32();
      RequestReads(index.State(), command, value);
      EncodedIsWord(index.internalValue);
      cm := CanFrame(RequestId(index.node), [command] + Address.Packed(index.index, index.subindex) + Word4(value));
    }

    /** Sends the request of a write and waits for the end of the download. */
    method RequestAndWait(index: NodeIndexObject, x: Exchange) returns (result: LoopResult, ghost consumed: nat)
      requires index.Valid()
      modifies index`stringValue, index`internalValue, index`toggleByte, index`len, this`sent
      ensures index.Valid()
      ensures var r := WriteRun(old(index.State()), x);
              result == r.result && index.State() == r.st && sent == old(sent) + r.sent && consumed == r.consumed
    {
      if !x.requestOk {
        return Failed, 0;
      }
      var request := InitiateDownload(index);
      ghost var r := Loop(index.State(), x.start, WRITE_LIMIT, x.events);
      Concatenation(old(sent), [request], r.sent);
      sent := sent + [request];
      result, consumed := RunLoop(index, x.start, WRITE_LIMIT, x.events);
    }

    /** `node_device_object_write_index`: the same for a write, which allows 100 ms. */
    method WriteIndex(index: NodeIndexObject, x: Exchange) returns (ok: bool, ghost consumed: nat)
      requires index.Valid()
      modifies index`stringValue, index`internalValue, index`toggleByte, index`len
      modifies this`sent, this`reseted, this`resetedNode
      ensures index.Valid()
      ensures !isOpen ==> !ok && unchanged(this) && unchanged(index)
      ensures isOpen ==>
                var r := WriteRun(old(index.State()), x);
                && ok == Succeeds(r.result) && index.State() == r.st && consumed == r.consumed <= |x.events|
                && sent == old(sent) + r.sent
                && reseted == old(reseted) + Reports(x.queue) + EndingReset(x.events, consumed)
      ensures isOpen && x.requestOk ==>
                KeepsLimit(old(index.State()), x.start, 100_000, x.events, ok, consumed)
    {
      if !isOpen {
        return false, 0;
      }
      WriteOnBus(index.State(), x);
      ReadSystemMessage(x.queue);
      var result;
      result, consumed := RequestAndWait(index, x);
      match result
      case Completed => return true, consumed;
      case Reseted(id) =>
        BroadcastNodeReset(id % 128);
        return true, consumed;
      case _ => return false, consumed;
    }
  }
}
