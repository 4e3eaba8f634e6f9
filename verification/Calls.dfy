/** Transfers as the callers of the device see them: the objects, a server, and a session. */
module Calls {
  import opened Bytes
  import opened Wrappers
  import opened Text
  import opened Values
  import opened Segmentation
  import opened Client
  import opened Discipline
  import opened Server
  import opened Transfers
  import opened ExpeditedTransfers
  import opened IndexObject
  import opened DeviceObject
  import opened NodeObjects
  import opened DigitalObject
  import Address
  import Panel
  import Writing
  import Reading
  import OutputRegister

  ghost function Written(st: IndexState, server: SdoServer, x: Session): World {
    Outcome(st, WriteRequest(st), WRITE_LIMIT, server, x)
  }

  /**
   * How writing a string goes, in any session.  Undisturbed, the call returns true exactly when the string
   * fits and all replies are delivered, and the server's dictionary then differs in that one entry, which
   * is the string if the server learns of its end.  If it may be cut short, the entry is the old or the
   * new one by the replies heard, and the call returns true before all of them exactly if a boot-up or
   * heartbeat frame or a bus that refuses a segment ended it.
   */
  ghost predicate StringWritten(st: IndexState, key: Key, s: seq<byte>, server: SdoServer, x: Session, ok: bool) {
    var d := Written(st, server, x).server.dictionary;
    var w := OpenedBy(st, WriteRequest(st), server, x);
    var heard := OwnHeard(w, WRITE_LIMIT, |x.late|, x.moves);
    && (Undisturbed(st, WriteRequest(st), WRITE_LIMIT, server, x) ==>
          && (ok <==> Writing.Fits(server.counts, s) && Own(x) > Pieces(|s|))
          && (ok ==> d == if Writing.Ends(server.counts, s) then server.dictionary[key := Characters(s)]
                          else server.dictionary))
    && (Bystanders(x.late, x.moves, st.node) && x.requestOk ==>
          && d == (if Writing.Ends(server.counts, s) && heard >= Writing.Quota(server.counts, s)
                   then server.dictionary[key := Characters(Writing.Accepted(server.counts, s))]
                   else server.dictionary)
          && (ok <==> (heard > Pieces(|s|) && Writing.Fits(server.counts, s))
                      || CutByFrame(EndedBy(w, WRITE_LIMIT, x.moves))))
  }

  lemma StringWrites(st: IndexState, server: SdoServer, x: Session)
    requires Writing.Writable(st)
    ensures StringWritten(st, KeyOf(st), Chars(st.value), server, x, Succeeds(Written(st, server, x).result))
  {
    if Undisturbed(st, WriteRequest(st), WRITE_LIMIT, server, x) {
      Writing.StringWrite(st, server, x);
    }
    if Bystanders(x.late, x.moves, st.node) {
      Writing.WriteIsAtomic(st, server, x);
    }
  }

  /** Writing the string of an index object on an open device. */
  method WriteString(device: NodeDeviceObject, index: NodeIndexObject, e: Exchange,
                     ghost server: SdoServer, ghost x: Session)
    returns (ok: bool)
    requires device.isOpen && index.Valid() && Writing.Writable(index.State())
    requires Shows(e, index.State(), WriteRequest(index.State()), WRITE_LIMIT, server, x)
    modifies index`stringValue, index`internalValue, index`toggleByte, index`len
    modifies device`sent, device`reseted, device`resetedNode
    ensures ok == Succeeds(Written(old(index.State()), server, x).result)
    ensures StringWritten(old(index.State()), KeyOf(old(index.State())), Chars(old(index.internalValue)), server, x, ok)
  {
    StringWrites(index.State(), server, x);
    ShownOutcome(e, index.State(), WriteRequest(index.State()), WRITE_LIMIT, server, x);
    var done, _ := device.WriteIndex(index, e);
    ok := done;
  }

  /**
   * Reading a string on an open device, in any session.  Undisturbed, the call returns true exactly when
   * the segments it wants are delivered; the index object then holds the stored form of what it took,
   * and its old value otherwise.  If it may be cut short, the value is the old or the new one by the
   * replies heard, and the call returns true with the old one exactly if a boot-up or heartbeat frame or
   * a bus that refuses a request ended it.
   */
  method ReadString(device: NodeDeviceObject, index: NodeIndexObject, e: Exchange,
                    ghost server: SdoServer, ghost s: seq<byte>, ghost x: Session)
    returns (ok: bool)
    requires device.isOpen && index.Valid() && Reading.Readable(index.State(), server, s)
    requires Shows(e, index.State(), ReadRequest(index.State()), READ_LIMIT, server, x)
    modifies index`stringValue, index`internalValue, index`toggleByte, index`len
    modifies device`sent, device`reseted, device`resetedNode
    ensures Undisturbed(old(index.State()), ReadRequest(old(index.State())), READ_LIMIT, server, x) ==>
              && (ok <==> Own(x) > Reading.Reads(s))
              && index.internalValue == if ok then StrV(Some(Stored(Reading.Taken(s)))) else old(index.internalValue)
    ensures var st := old(index.State());
            var w := OpenedBy(st, ReadRequest(st), server, x);
            var whole := OwnHeard(w, READ_LIMIT, |x.late|, x.moves) > Reading.Reads(s);
            Bystanders(x.late, x.moves, st.node) && x.requestOk ==>
              && index.internalValue == (if whole then StrV(Some(Stored(Reading.Taken(s)))) else st.value)
              && (ok <==> whole || CutByFrame(EndedBy(w, READ_LIMIT, x.moves)))
  {
    ghost var st := index.State();
    if Undisturbed(st, ReadRequest(st), READ_LIMIT, server, x) {
      Reading.StringRead(st, server, s, x);
    }
    if Bystanders(x.late, x.moves, st.node) {
      Reading.ReadIsAtomic(st, server, s, x);
    }
    ShownOutcome(e, st, ReadRequest(st), READ_LIMIT, server, x);
    var done, _ := device.ReadIndex(index, e);
    ok := done;
  }

  /** The exchanges of a call on a digital node show it what happens in the sessions of `c`. */
  ghost predicate ShowsCall(y: OutputRegister.Board, c: OutputRegister.SetCall, rx: Exchange, wx: Exchange)
    requires c.b < 32
  {
    && (y.shadow == Panel.UNSET ==> Shows(rx, y.entry, ReadRequest(y.entry), READ_LIMIT, y.server, c.load))
    && match OutputRegister.Start(y, c)
       case None => true
       case Some(w) =>
         var z := OutputRegister.Begun(y, c);
         var st := z.entry.(value := Panel.ValueOf(Panel.WithBit(w, c.b, c.v)));
         Shows(wx, st, WriteRequest(st), WRITE_LIMIT, z.server, c.store)
  }

  /** What the client reads of the output entry, as it sees it. */
  function ReadingSeen(y: OutputRegister.Board, rx: Exchange): Panel.Reading {
    if y.shadow != Panel.UNSET then Panel.NoReading else Got(ReadRun(y.entry, rx))
  }

  function EntrySeen(y: OutputRegister.Board, rx: Exchange): IndexState {
    if y.shadow != Panel.UNSET then y.entry else ReadRun(y.entry, rx).st
  }

  lemma LoadSeen(y: OutputRegister.Board, c: OutputRegister.SetCall, rx: Exchange, wx: Exchange)
    requires OutputRegister.Wired(y) && c.b < 32 && ShowsCall(y, c, rx, wx)
    ensures EntrySeen(y, rx) == OutputRegister.Begun(y, c).entry
    ensures Panel.Ready(y.shadow, ReadingSeen(y, rx)) == OutputRegister.Start(y, c)
  {
    if y.shadow == Panel.UNSET {
      ShownOutcome(rx, y.entry, ReadRequest(y.entry), READ_LIMIT, y.server, c.load);
      OutputRegister.Loads(y, c.load);
    }
  }

  lemma StoreSeen(z: OutputRegister.Board, w: bv32, x: Session, wx: Exchange, transformed: Option<Value>)
    requires OutputRegister.Wired(z)
    requires var st := z.entry.(value := Panel.ValueOf(w));
             Shows(wx, st, WriteRequest(st), WRITE_LIMIT, z.server, x)
    ensures WroteWord(z.entry, w, transformed, wx) ==
            (Succeeds(OutputRegister.StoreOutcome(z, w, x).result), OutputRegister.AfterStore(z, w, x).entry)
  {
    var st := z.entry.(value := Panel.ValueOf(w));
    ShownOutcome(wx, st, WriteRequest(st), WRITE_LIMIT, z.server, x);
  }

  /** What the call returns: false if nothing could be loaded, else whether its write succeeds. */
  predicate Returns(y: OutputRegister.Board, c: OutputRegister.SetCall)
    requires c.b < 32
  {
    match OutputRegister.Start(y, c)
    case None => false
    case Some(w) =>
      Succeeds(OutputRegister.StoreOutcome(OutputRegister.Begun(y, c), Panel.WithBit(w, c.b, c.v), c.store).result)
  }

  /** A call as the digital node sees it is a step of the board. */
  lemma CallSeen(y: OutputRegister.Board, c: OutputRegister.SetCall, rx: Exchange, wx: Exchange,
                 transformed: Option<Value>)
    requires OutputRegister.Wired(y) && c.b < 32 && ShowsCall(y, c, rx, wx)
    ensures var word := Panel.Ready(y.shadow, ReadingSeen(y, rx));
            var z := OutputRegister.SetOutput(y, c);
            && word == OutputRegister.Start(y, c)
            && z.shadow == (if word == None then y.shadow else Panel.WithBit(word.value, c.b, c.v))
            && Wrote(EntrySeen(y, rx), word, c.b, c.v, transformed, wx) == (Returns(y, c), z.entry)
  {
    LoadSeen(y, c, rx, wx);
    var z := OutputRegister.Begun(y, c);
    if y.shadow == Panel.UNSET {
      OutputRegister.Loads(y, c.load);
    }
    if w :| OutputRegister.Start(y, c) == Some(w) {
      StoreSeen(z, Panel.WithBit(w, c.b, c.v), c.store, wx, transformed);
    }
  }

  /**
   * Setting an output of a digital node whose entry the server has is one step of the board: shadow
   * and index object afterwards are its, and the call returns true exactly when its write does.
   */
  method SetOutput(digital: NodeDigitalObject, val: int, bit: bv32, transformed: Option<Value>,
                   rx: Exchange, wx: Exchange, ghost y: OutputRegister.Board, ghost c: OutputRegister.SetCall)
    returns (ok: bool)
    requires digital.node.Valid() && digital.Online("6300sub1") && bit < 32
    requires OutputRegister.Wired(y) && y.entry == digital.Entry("6300sub1") && y.shadow == digital.digitVal
    requires c.b == bit && c.v == (val % 2 == 1) && ShowsCall(y, c, rx, wx)
    modifies digital`digitVal, digital`outFlags
    modifies digital.node.lindex`stringValue, digital.node.lindex`internalValue
    modifies digital.node.lindex`toggleByte, digital.node.lindex`len
    modifies digital.node.device
    ensures digital.node.Valid() && digital.Online("6300sub1")
    ensures digital.digitVal == OutputRegister.SetOutput(y, c).shadow
    ensures digital.Entry("6300sub1") == OutputRegister.SetOutput(y, c).entry
    ensures ok == Returns(y, c)
  {
    CallSeen(y, c, rx, wx, transformed);
    ghost var reading;
    ok, reading := digital.SetValue(val, bit, transformed, rx, wx);
    assert reading == ReadingSeen(y, rx);
  }

  /** There is such an entry, the node has a server, and its device is open. */
  ghost predicate Online(node: NodeObject, id: string)
    reads node, node.device
  {
    id in node.indexes && 1 <= node.nodeId < 128 && node.device != null && node.device.isOpen
  }

  /** The dictionary key that the id of an entry stands for. */
  function KeyOfId(id: string): Key {
    (Address.Parse(id).0 % 0x1_0000, Address.Parse(id).1 % 0x100)
  }

  /** A value of the entry's type is written as it is. */
  method WriteAsIs(node: NodeObject, id: string, value: Value, transformed: Option<Value>, e: Exchange)
    returns (ok: bool)
    requires node.Valid() && Online(node, id)
    requires WellTyped(value) && TypeOf(value) == node.indexes[id].gType
    modifies node.lindex`stringValue, node.lindex`internalValue, node.lindex`toggleByte, node.lindex`len
    modifies node.device
    ensures ok == Succeeds(WriteRun(old(node.indexes[id].State()).(value := value), e).result)
  {
    ok := node.WriteValue(id, value, transformed, e);
  }

  /** Writing a string by the id of its entry: what the server gets under the key of the id is that string. */
  method WriteText(node: NodeObject, id: string, s: seq<byte>, transformed: Option<Value>, e: Exchange,
                   ghost server: SdoServer, ghost x: Session)
    returns (ok: bool)
    requires node.Valid() && Online(node, id) && node.indexes[id].gType == GString && 0 !in s
    requires var st := node.indexes[id].State().(value := StrV(Some(s)));
             Shows(e, st, WriteRequest(st), WRITE_LIMIT, server, x)
    modifies node.lindex`stringValue, node.lindex`internalValue, node.lindex`toggleByte, node.lindex`len
    modifies node.device
    ensures StringWritten(old(node.indexes[id].State()).(value := StrV(Some(s))), KeyOfId(id), s, server, x, ok)
  {
    ghost var st := node.indexes[id].State().(value := StrV(Some(s)));
    StringWrites(st, server, x);
    ShownOutcome(e, st, WriteRequest(st), WRITE_LIMIT, server, x);
    ok := WriteAsIs(node, id, StrV(Some(s)), transformed, e);
  }

  /**
   * How writing a number goes, in any session with bystanders: the server's entry has the bytes of the
   * value exactly if the bus takes the request, and the call returns true exactly if the reply is heard
   * or a boot-up or heartbeat frame ended it.
   */
  ghost predicate NumberWritten(st: IndexState, key: Key, value: Value, server: SdoServer, x: Session, ok: bool) {
    var d := Written(st, server, x).server.dictionary;
    var w := OpenedBy(st, WriteRequest(st), server, x);
    if !x.requestOk then !ok && d == server.dictionary
    else
      && key in d && d[key].Numeric? && BytesOf(d[key].bytes, Width(st.dataType), value)
      && d == server.dictionary[key := d[key]]
      && (ok <==> OwnHeard(w, WRITE_LIMIT, |x.late|, x.moves) > 0 || CutByFrame(EndedBy(w, WRITE_LIMIT, x.moves)))
  }

  lemma NumberWrites(st: IndexState, e: Exchange, server: SdoServer, x: Session)
    requires ValidState(st) && st.dataType != 0x9 && 1 <= st.node < 128 && Bystanders(x.late, x.moves, st.node)
    requires Shows(e, st, WriteRequest(st), WRITE_LIMIT, server, x)
    ensures NumberWritten(st, KeyOf(st), st.value, server, x, Succeeds(WriteRun(st, e).result))
  {
    NumberWriteIsAtomic(st, server, x);
    ShownOutcome(e, st, WriteRequest(st), WRITE_LIMIT, server, x);
  }

  /** Writing a number by the id of its entry. */
  method WriteNumber(node: NodeObject, id: string, value: Value, transformed: Option<Value>, e: Exchange,
                     ghost server: SdoServer, ghost x: Session)
    returns (ok: bool)
    requires node.Valid() && Online(node, id) && Bystanders(x.late, x.moves, node.nodeId)
    requires WellTyped(value) && TypeOf(value) == node.indexes[id].gType != GString
    requires var st := node.indexes[id].State().(value := value);
             Shows(e, st, WriteRequest(st), WRITE_LIMIT, server, x)
    modifies node.lindex`stringValue, node.lindex`internalValue, node.lindex`toggleByte, node.lindex`len
    modifies node.device
    ensures NumberWritten(old(node.indexes[id].State()).(value := value), KeyOfId(id), value, server, x, ok)
  {
    ghost var st := node.indexes[id].State().(value := value);
    NumberWrites(st, e, server, x);
    ok := WriteAsIs(node, id, value, transformed, e);
  }

  /**
   * Reading a number by the id of its entry, where the server has the bytes `b`: the value is theirs if
   * the reply is heard, and the old one if a boot-up or heartbeat frame ended the call; else there is none.
   */
  method ReadNumber(node: NodeObject, id: string, e: Exchange, ghost b: seq<byte>,
                    ghost server: SdoServer, ghost x: Session)
    returns (value: Option<Value>)
    requires node.Valid() && Online(node, id) && Bystanders(x.late, x.moves, node.nodeId)
    requires HasNumber(server, KeyOfId(id), b) && x.requestOk
    requires var st := node.indexes[id].State();
             Shows(e, st, ReadRequest(st), READ_LIMIT, server, x)
    modifies node.lindex`stringValue, node.lindex`internalValue, node.lindex`toggleByte, node.lindex`len
    modifies node.device
    ensures var st := old(node.indexes[id].State());
            var w := OpenedBy(st, ReadRequest(st), server, x);
            if OwnHeard(w, READ_LIMIT, |x.late|, x.moves) > 0 then value.Some? && Fetched(value.value, st.value, b)
            else value == if CutByFrame(EndedBy(w, READ_LIMIT, x.moves)) then Some(st.value) else None
  {
    ghost var st := node.indexes[id].State();
    NumberReadIsAtomic(st, server, b, x);
    ShownOutcome(e, st, ReadRequest(st), READ_LIMIT, server, x);
    value := node.ReadValue(id, e);
  }
}
