/** The index object: one entry of a node's object dictionary as the daemon keeps it. */
module IndexObject {
  import opened Bytes
  import opened Wrappers
  import opened Text
  import opened Values
  import opened Segmentation
  import Address

  /** Outcome of `Toggle`: a frame to send, the transfer is over, or a null pointer was read. */
  datatype Verdict = More | Final | Fault

  class NodeIndexObject {
    /** Set once, when the object is made from its group of the EDS file. */
    const id: string
    const index: nat
    const subindex: nat
    const dataType: nat
    const gType: GType
    var node: nat
    var internalValue: Value
    var stringValue: Option<seq<byte>>
    var toggleByte: nat
    var len: nat

    ghost predicate Valid()
      reads this`internalValue, this`toggleByte
    {
      && gType == GTypeFor(dataType)
      && WellTyped(internalValue) && TypeOf(internalValue) == gType
      && ToggleByte(toggleByte)
      && index == Address.Parse(id).0 && subindex == Address.Parse(id).1
    }

    /** The fields a transfer looks at. */
    function State(): IndexState
      reads this
    {
      IndexState(node, index, subindex, dataType, internalValue, stringValue, toggleByte, len)
    }

    /** The new object holds the zero of the GType that goes with its data type; signed integers are the default. */
    constructor (id: string, dataType: nat)
      ensures Valid()
      ensures this.id == id && this.dataType == dataType && node == 0
      ensures gType == GBoolean <==> dataType == 0x1
      ensures gType == GUInt <==> dataType in {0x5, 0x6, 0x7}
      ensures gType == GDouble <==> dataType == 0x8
      ensures gType == GString <==> dataType == 0x9
      ensures internalValue in {BoolV(false), IntV(0), UIntV(0), DoubleV(0.0), StrV(None)} && stringValue == None
    {
      this.id := id;
      node := 0;
      index, subindex := Address.Parse(id).0, Address.Parse(id).1;
      this.dataType := dataType;
      gType := GTypeFor(dataType);
      internalValue := ZeroValue(GTypeFor(dataType));
      stringValue := None;
      toggleByte, len := 0, 0;
    }

    /** The property "nodeid". */
    method SetNode(node: nat)
      modifies this`node
      ensures this.node == node
    {
      this.node := node;
    }

    /** `value32`: the 32-bit word a write request carries. */
    function Value32(): (v: nat)
      requires Valid()
      reads this
      ensures v < WORD
    {
      Encoded(internalValue)
    }

    /** `set_value32`: stores a received word; a string is left alone. */
    method SetValue32(value: nat) returns (ok: bool)
      requires Valid() && value < WORD
      modifies this`internalValue
      ensures Valid() && internalValue == Decoded(old(internalValue), value)
      ensures if gType == GString then internalValue == old(internalValue) else Holds(internalValue, value)
      ensures ok <==> gType != GBoolean && gType != GString
    {
      match gType
      case GBoolean =>
        internalValue := BoolV(value != 0);
        return false;
      case GInt =>
        internalValue := IntV(Signed(value));
        return true;
      case GUInt =>
        internalValue := UIntV(value);
        return true;
      case GDouble =>
        internalValue := DoubleV(value as real);
        return true;
      case GString =>
        return false;
    }

    /** `set_value`: takes a value of the same type, or else what GLib transforms it to. */
    method SetValue(value: Value, transformed: Option<Value>) returns (ok: bool)
      requires Valid()
      modifies this`internalValue
      ensures Valid()
      ensures WellTyped(value) && TypeOf(value) == gType ==> ok && internalValue == value
      ensures !(WellTyped(value) && TypeOf(value) == gType) ==>
                match transformed
                case Some(t) =>
                  if WellTyped(t) && TypeOf(t) == gType then ok && internalValue == t
                  else !ok && internalValue == old(internalValue)
                case None => !ok && internalValue == old(internalValue)
    {
      if WellTyped(value) && TypeOf(value) == gType {
        internalValue := value;
        return true;
      }
      if transformed.Some? && WellTyped(transformed.value) && TypeOf(transformed.value) == gType {
        internalValue := transformed.value;
        return true;
      }
      return false;
    }

    /** Writes the next download segment into `wdata` and drops it from the pending text. */
    method InitWdataPackage(wdata: array<byte>) returns (more: bool)
      requires Valid() && wdata.Length == 8 && wdata[..] == Zeros(8)
      modifies this`stringValue, wdata
      ensures Valid()
      ensures match SendSegment(old(State()))
              case Stop(st) => !more && State() == st
              case Send(st, data) => more && State().(toggle := Flip(toggleByte)) == st && wdata[..] == data
    {
      wdata[0] := toggleByte;
      if stringValue == None {
        return false;
      }
      var text := stringValue.value;
      if |text| < 1 {
        return false;
      }
      var count := 1;
      while count < 8 && count - 1 < |text|
        invariant 1 <= count <= 8 && count - 1 <= |text|
        invariant wdata[0] == toggleByte
        invariant forall i :: 1 <= i < count ==> wdata[i] == text[i - 1]
        invariant forall i :: count <= i < 8 ==> wdata[i] == 0
      {
        wdata[count] := text[count - 1];
        count := count + 1;
      }
      count := count - 1;
      var unused := match count
        case 0 => 0x0E + 0x01
        case 1 => 0x0C + 0x01
        case 2 => 0x0A + 0x01
        case 3 => 0x08 + 0x01
        case 4 => 0x06 + 0x01
        case 5 => 0x04 + 0x01
        case 6 => 0x02 + 0x01
        case _ => 0;
      wdata[0] := (wdata[0] as int + unused) % 256;
      stringValue := Some(text[count..]);
      assert count == Chunk(text);
      assert wdata[..] == SegmentOf(toggleByte, text);
      return true;
    }

    /** Appends the bytes of an upload segment and, when it is the last one, stores the text. */
    method InitRdataPackage(rdata: seq<byte>, wdata: array<byte>) returns (verdict: Verdict)
      requires Valid() && gType == GString && |rdata| == 8 && wdata.Length == 8
      modifies this`stringValue, this`internalValue, wdata
      ensures Valid()
      ensures wdata[..] == [old(toggleByte) as byte] + old(wdata[1..])
      ensures match TakeSegment(old(State()), rdata)
              case Crash => verdict == Fault && State() == old(State())
              case Stop(st) => verdict == Final && State() == st
              case Send(st, _) => verdict == More && State().(toggle := Flip(toggleByte)) == st
    {
      wdata[0] := toggleByte;
      var lang := match rdata[0] / 2 % 8
        case 0 => 7
        case 1 => 6
        case 2 => 5
        case 3 => 4
        case 4 => 3
        case 5 => 2
        case 6 => 1
        case _ => 0;
      if stringValue == None {
        return Fault;
      }
      var text := stringValue.value;
      var count := 1;
      Utf8Start(text, rdata);
      while count < lang + 1
        invariant 1 <= count <= lang + 1
        invariant stringValue == Some(text + Utf8(rdata[1..count]))
        modifies this`stringValue
      {
        Utf8Next(text, rdata, count);
        stringValue := Some(stringValue.value + Utf8Of(rdata[count]));
        count := count + 1;
      }
      assert rdata[1..count] == Carried(rdata);
      if lang < 7 || rdata[0] % 2 == 1 || len <= |stringValue.value| {
        internalValue := StrV(Some(Escape(CString(stringValue.value))));
        return Final;
      }
      return More;
    }

    /** The switch of `node_index_object_toggle`, on a cleared buffer and before the toggle bit flips. */
    method Dispatch(rdata: seq<byte>, wdata: array<byte>) returns (verdict: Verdict)
      requires Valid() && gType == GString && |rdata| == 8 && wdata.Length == 8 && wdata[..] == Zeros(8)
      modifies this`stringValue, this`internalValue, this`toggleByte, this`len, wdata
      ensures Valid()
      ensures match ToggleStep(old(State()), rdata)
              case Crash => verdict == Fault && State() == old(State())
              case Stop(st) => verdict == Final && State() == st
              case Send(st, data) =>
                verdict == More && State().(toggle := Flip(toggleByte)) == st && wdata[..] == data
    {
      if rdata[0] == 0x41 {
        stringValue := Some([]);
        toggleByte := 0x60;
        len := rdata[4] as int + 256 * rdata[5] as int;
        if len < 1 {
          internalValue := StrV(stringValue);
          return Final;
        }
        wdata[0] := toggleByte;
        assert wdata[..] == [UPLOAD as byte] + Zeros(7);
      } else if rdata[0] == 0x60 {
        toggleByte := 0x00;
        len := 0;
        stringValue := Some(Chars(internalValue));
        if |stringValue.value| < 1 {
          return Final;
        }
        var more := InitWdataPackage(wdata);
        if !more {
          return Final;
        }
      } else if rdata[0] < 0x20 {
        verdict := InitRdataPackage(rdata, wdata);
        if verdict == More {
          assert wdata[..] == [old(toggleByte) as byte] + Zeros(7);
        }
        return;
      } else if rdata[0] / 32 % 2 == 1 {
        var more := InitWdataPackage(wdata);
        if !more {
          return Final;
        }
      }
      return More;
    }

    /** `node_index_object_toggle`: answers one server frame of a string transfer. */
    method Toggle(rdata: seq<byte>, wdata: array<byte>) returns (verdict: Verdict)
      requires Valid() && |rdata| == 8 && wdata.Length == 8
      modifies this`stringValue, this`internalValue, this`toggleByte, this`len, wdata
      ensures Valid()
      ensures match ToggleStep(old(State()), rdata)
              case Crash => verdict == Fault && State() == old(State())
              case Stop(st) => verdict == Final && State() == st
              case Send(st, data) => verdict == More && State() == st && wdata[..] == data
    {
      if gType != GString {
        return Final;
      }
      forall i | 0 <= i < 8 {
        wdata[i] := 0;
      }
      assert wdata[..] == Zeros(8);
      verdict := Dispatch(rdata, wdata);
      if verdict == More {
        ghost var data := wdata[..];
        toggleByte := Flip(toggleByte);
        assert wdata[..] == data;
      }
    }
  }
}
