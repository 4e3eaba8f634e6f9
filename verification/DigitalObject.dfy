/** The digital I/O node: 16 outputs behind a shadow word, and 16 inputs. */
module DigitalObject {
  import opened Wrappers
  import opened Values
  import opened Segmentation
  import opened Client
  import opened NodeObjects
  import opened Panel

  const OUTPUT_ID := "6300sub1"
  const INPUT_ID := "6100sub1"

  /** The reading a caller gets from a read. */
  function Got(r: Run): Reading {
    ReadingOf(if Succeeds(r.result) then Some(r.st.value) else None)
  }

  /** Success of a write, and the index object after it; without a word nothing is written. */
  function Wrote(st: IndexState, word: Option<bv32>, bit: bv32, v: bool, transformed: Option<Value>, x: Exchange)
    : (bool, IndexState)
    requires bit < 32
  {
    match word
    case None => (false, st)
    case Some(w) => WroteWord(st, WithBit(w, bit, v), transformed, x)
  }

  /** The entry takes the word as a value of its type, or it is not written. */
  function WroteWord(st: IndexState, w: bv32, transformed: Option<Value>, x: Exchange): (bool, IndexState) {
    match Given(ValueOf(w), transformed, GTypeFor(st.dataType))
    case None => (false, st)
    case Some(v) =>
      var r := WriteRun(st.(value := v), x);
      (Succeeds(r.result), r.st)
  }

  class NodeDigitalObject {
    const node: NodeObject
    var digitVal: bv32
    var digitINVal: bv32
    /** OUT00 to OUT15 and IN00 to IN15. */
    var outFlags: seq<bool>
    var inFlags: seq<bool>

    function State(): Outputs
      reads this
    {
      Outputs(digitVal, outFlags)
    }

    function InputState(): Outputs
      reads this
    {
      Outputs(digitINVal, inFlags)
    }

    constructor (node: NodeObject)
      ensures State() == INITIAL && this.node == node && digitINVal == 0
    {
      this.node := node;
      digitVal := UNSET;
      digitINVal := 0;
      outFlags := Flags(0);
      inFlags := Flags(0);
    }

    /** There is such an entry, and the device is there and open. */
    ghost predicate Online(id: string)
      reads node, node.device
    {
      id in node.indexes && node.device != null && node.device.isOpen
    }

    ghost function Entry(id: string): IndexState
      requires node.Valid() && id in node.indexes
      reads node, node.lindex
    {
      node.indexes[id].State()
    }

    /** What reading an entry over the bus gives. */
    ghost function Fetched(id: string, x: Exchange): Reading
      requires node.Valid()
      reads node, node.lindex, node.device
    {
      if Online(id) then Got(ReadRun(Entry(id), x)) else NoReading
    }

    /** The index object of an entry after reading it. */
    ghost function EntryRead(id: string, x: Exchange): IndexState
      requires node.Valid() && id in node.indexes
      reads node, node.lindex, node.device
    {
      if Online(id) then ReadRun(Entry(id), x).st else Entry(id)
    }

    /** Reads an entry from the device. */
    method Fetch(id: string, x: Exchange) returns (reading: Reading)
      requires node.Valid()
      modifies node.lindex`stringValue, node.lindex`internalValue, node.lindex`toggleByte, node.lindex`len
      modifies node.device
      ensures node.Valid() && reading == old(Fetched(id, x))
      ensures Online(id) == old(Online(id))
      ensures Online(id) ==> Entry(id) == old(EntryRead(id, x))
    {
      var value := node.ReadValue(id, x);
      reading := ReadingOf(value);
    }

    /** Writes a word, if there is one, with one bit changed to the output entry. */
    method Send(word: Option<bv32>, bit: bv32, v: bool, transformed: Option<Value>, x: Exchange) returns (ok: bool)
      requires node.Valid() && bit < 32
      modifies node.lindex`stringValue, node.lindex`internalValue, node.lindex`toggleByte, node.lindex`len
      modifies node.device
      ensures node.Valid()
      ensures Online(OUTPUT_ID) == old(Online(OUTPUT_ID))
      ensures if Online(OUTPUT_ID) then
                (ok, Entry(OUTPUT_ID)) == Wrote(old(Entry(OUTPUT_ID)), word, bit, v, transformed, x)
              else !ok
    {
      if word == None {
        return false;
      }
      ok := node.WriteValue(OUTPUT_ID, ValueOf(WithBit(word.value, bit, v)), transformed, x);
    }

    /** The shadow, loaded from the device if it is unset; none if that fails. */
    method LoadShadow(x: Exchange) returns (word: Option<bv32>, ghost reading: Reading)
      requires node.Valid()
      modifies node.lindex`stringValue, node.lindex`internalValue, node.lindex`toggleByte, node.lindex`len
      modifies node.device
      ensures node.Valid()
      ensures digitVal == old(digitVal) && outFlags == old(outFlags)
      ensures reading == if old(digitVal) == UNSET then old(Fetched(OUTPUT_ID, x)) else NoReading
      ensures word == Ready(old(digitVal), reading)
      ensures word == None <==> digitVal == UNSET && reading == NoReading
      ensures Online(OUTPUT_ID) == old(Online(OUTPUT_ID))
      ensures Online(OUTPUT_ID) ==>
                Entry(OUTPUT_ID) ==
                if old(digitVal) == UNSET then old(EntryRead(OUTPUT_ID, x)) else old(Entry(OUTPUT_ID))
    {
      if digitVal != UNSET {
        return Some(digitVal), NoReading;
      }
      var r := Fetch(OUTPUT_ID, x);
      reading := r;
      word := if r == NoReading then None else Some(Loaded(digitVal, r));
    }

    /** The new shadow; `node_rigital_reload_out_values` then takes the flags from it. */
    method SetOutputs(w: bv32)
      modifies this`digitVal, this`outFlags
      ensures State() == Outputs(w, Flags(w))
    {
      digitVal := w;
      outFlags := Flags(digitVal);
    }

    method ChangeOutputs(word: Option<bv32>, bit: bv32, v: bool)
      requires bit < 32
      modifies this`digitVal, this`outFlags
      ensures State() == Changed(old(State()), word, bit, v)
      ensures word != None ==> Mirrored(outFlags, digitVal)
    {
      if word != None {
        FlagsShow(WithBit(word.value, bit, v));
        SetOutputs(WithBit(word.value, bit, v));
      }
    }

    /** Changes one bit of a word, if there is one, writes the result and makes it the shadow. */
    method Change(word: Option<bv32>, bit: bv32, v: bool, transformed: Option<Value>, x: Exchange) returns (ok: bool)
      requires node.Valid() && bit < 32
      modifies this`digitVal, this`outFlags
      modifies node.lindex`stringValue, node.lindex`internalValue, node.lindex`toggleByte, node.lindex`len
      modifies node.device
      ensures node.Valid() && State() == Changed(old(State()), word, bit, v)
      ensures word != None ==> Mirrored(outFlags, digitVal)
      ensures Online(OUTPUT_ID) == old(Online(OUTPUT_ID))
      ensures if Online(OUTPUT_ID) then
                (ok, Entry(OUTPUT_ID)) == Wrote(old(Entry(OUTPUT_ID)), word, bit, v, transformed, x)
              else !ok
    {
      ghost var before := State();
      ok := Send(word, bit, v, transformed, x);
      assert digitVal == before.shadow && outFlags == before.flags;
      ChangeOutputs(word, bit, v);
    }

    method RefreshOutputs(r: Reading)
      modifies this`digitVal, this`outFlags
      ensures State() == Refresh(old(State()), r)
      ensures Refreshed(old(State()), r, State())
    {
      RefreshShows(State(), r);
      if r != NoReading {
        SetOutputs(Loaded(digitVal, r));
      }
    }

    method RefreshInputs(r: Reading)
      modifies this`digitINVal, this`inFlags
      ensures InputState() == Refresh(old(InputState()), r)
      ensures Refreshed(old(InputState()), r, InputState())
    {
      RefreshShows(InputState(), r);
      if r != NoReading {
        digitINVal := Loaded(digitINVal, r);
        inFlags := Flags(digitINVal);
      }
    }

    /**
     * `node_digital_object_set_value`: sets one output.  `rx` and `wx` are the bus exchanges of the
     * read, if there is one, and of the write; `reading` tells what the read gave.  The new word is
     * the shadow and the flags are taken from it, whether the write is accepted or not.
     */
    method SetValue(val: int, bit: bv32, transformed: Option<Value>, rx: Exchange, wx: Exchange)
      returns (ok: bool, ghost reading: Reading)
      requires node.Valid() && bit < 32
      modifies this`digitVal, this`outFlags
      modifies node.lindex`stringValue, node.lindex`internalValue, node.lindex`toggleByte, node.lindex`len
      modifies node.device
      ensures node.Valid()
      ensures reading == if old(digitVal) == UNSET then old(Fetched(OUTPUT_ID, rx)) else NoReading
      ensures State() == SetBit(old(State()), val % 2 == 1, bit, reading)
      ensures old(digitVal) != UNSET || reading != NoReading ==> Mirrored(outFlags, digitVal)
      ensures Online(OUTPUT_ID) == old(Online(OUTPUT_ID))
      ensures if Online(OUTPUT_ID) then
                var st := if old(digitVal) == UNSET then old(EntryRead(OUTPUT_ID, rx)) else old(Entry(OUTPUT_ID));
                (ok, Entry(OUTPUT_ID)) == Wrote(st, Ready(old(digitVal), reading), bit, val % 2 == 1, transformed, wx)
              else !ok
    {
      var word;
      word, reading := LoadShadow(rx);
      ok := Change(word, bit, val % 2 == 1, transformed, wx);
    }

    /** `node_digital_object_get_out_value`: reads the outputs back from the device. */
    method GetOutValue(x: Exchange) returns (ok: bool, ghost reading: Reading)
      requires node.Valid()
      modifies this`digitVal, this`outFlags
      modifies node.lindex`stringValue, node.lindex`internalValue, node.lindex`toggleByte, node.lindex`len
      modifies node.device
      ensures node.Valid()
      ensures OUTPUT_ID == "6300sub1" && reading == old(Fetched(OUTPUT_ID, x))
      ensures State() == Refresh(old(State()), reading)
      ensures Refreshed(old(State()), reading, State())
      ensures ok <==> reading != NoReading
    {
      ghost var before := State();
      var r := Fetch(OUTPUT_ID, x);
      assert digitVal == before.shadow && outFlags == before.flags;
      reading := r;
      ok := r != NoReading;
      RefreshOutputs(r);
    }

    /** `node_digital_object_get_in_value`: reads the inputs from the device. */
    method GetInValue(x: Exchange) returns (ok: bool, ghost reading: Reading)
      requires node.Valid()
      modifies this`digitINVal, this`inFlags
      modifies node.lindex`stringValue, node.lindex`internalValue, node.lindex`toggleByte, node.lindex`len
      modifies node.device
      ensures node.Valid()
      ensures INPUT_ID == "6100sub1" && reading == old(Fetched(INPUT_ID, x))
      ensures InputState() == Refresh(old(InputState()), reading)
      ensures Refreshed(old(InputState()), reading, InputState())
      ensures ok <==> reading != NoReading
    {
      ghost var before := InputState();
      var r := Fetch(INPUT_ID, x);
      assert digitINVal == before.shadow && inFlags == before.flags;
      reading := r;
      ok := r != NoReading;
      RefreshInputs(r);
    }
  }
}
