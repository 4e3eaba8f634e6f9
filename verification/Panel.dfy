/**
 * The outputs of a digital node: the shadow word with its flags, the word a single-bit write makes of
 * it, and words overridden by such requests.
 */
module Panel {
  import opened Bytes
  import opened Wrappers
  import opened Values
  import Words

  /** The shadow word before it was read from the device. */
  const UNSET: bv32 := 0xFFFF_FFFF

  predicate Bit(x: bv32, i: bv32)
    requires i < 32
  {
    (x >> i) & 1 == 1
  }

  function WithBit(x: bv32, b: bv32, v: bool): bv32
    requires b < 32
  {
    (x & !((1 as bv32) << b)) | ((if v then 1 as bv32 else 0) << b)
  }

  function Tested(x: bv32): bv32 -> bool {
    i => i < 32 && Bit(x, i)
  }

  function Sixteen(test: bv32 -> bool): (f: seq<bool>)
    ensures |f| == 16
  {
    [test(0), test(1), test(2), test(3), test(4), test(5), test(6), test(7),
     test(8), test(9), test(10), test(11), test(12), test(13), test(14), test(15)]
  }

  /** The flags OUT00 to OUT15, or IN00 to IN15, of a word. */
  function Flags(x: bv32): (f: seq<bool>)
    ensures |f| == 16
  {
    Sixteen(Tested(x))
  }

  /** Flag `i` is bit `i` of the word. */
  ghost predicate Mirrored(f: seq<bool>, x: bv32) {
    |f| == 16 && forall i :: 0 <= i < 16 ==> f[i] == Bit(x, i as bv32)
  }

  lemma SixteenAt(test: bv32 -> bool, i: nat)
    requires i < 16
    ensures Sixteen(test)[i] == test(i as bv32)
  {
  }

  lemma FlagsShow(x: bv32)
    ensures Mirrored(Flags(x), x)
  {
    forall i | 0 <= i < 16
      ensures Flags(x)[i] == Bit(x, i as bv32)
    {
      SixteenAt(Tested(x), i);
    }
  }

  lemma BitOfWithBit(x: bv32, b: bv32, v: bool, i: bv32)
    requires b < 32 && i < 32
    ensures Bit(WithBit(x, b, v), i) == if i == b then v else Bit(x, i)
  {
  }

  /** Writing one of the low 16 bits leaves the high half alone. */
  lemma HighHalfStays(x: bv32, b: bv32, v: bool)
    requires b < 16
    ensures WithBit(x, b, v) & 0xFFFF_0000 == x & 0xFFFF_0000
  {
  }

  /** What reading the register gives: nothing, a word, or a value that is no integer. */
  datatype Reading = NoReading | Word(w: bv32) | NoWord

  /** A 32-bit number as a word. */
  function WordAt(n: nat): bv32 {
    if n < WORD then n as bv32 else 0
  }

  /** A value read from the bus as a reading of a register. */
  function ReadingOf(value: Option<Value>): Reading {
    match value
    case None => NoReading
    case Some(UIntV(u)) => Word(WordAt(u))
    case Some(IntV(i)) => Word(WordAt(i % WORD))
    case Some(_) => NoWord
  }

  /** An integer is read as the word of its number modulo 2^32. */
  lemma ReadingIs(value: Option<Value>)
    ensures match value
            case None => ReadingOf(value) == NoReading
            case Some(UIntV(u)) => u < WORD ==> ReadingOf(value).Word? && ReadingOf(value).w as nat == u
            case Some(IntV(i)) => ReadingOf(value).Word? && ReadingOf(value).w as nat == i % WORD
            case Some(_) => ReadingOf(value) == NoWord
  {
    match value
    case Some(UIntV(u)) =>
      if u < WORD {
        Words.WordOfNat(u);
      }
    case Some(IntV(i)) => Words.WordOfNat(i % WORD);
    case _ =>
  }

  /** The value a word is written as. */
  function ValueOf(w: bv32): (v: Value)
    ensures WellTyped(v) && TypeOf(v) == GUInt
  {
    UIntV(w as nat)
  }

  /** The shadow after a reading; a value of another type leaves it alone. */
  function Loaded(shadow: bv32, r: Reading): bv32 {
    if r.Word? then r.w else shadow
  }

  /** The shadow word and the flags kept beside it. */
  datatype Outputs = Outputs(shadow: bv32, flags: seq<bool>)

  /** The word a single-bit write starts from: the shadow, loaded from the device if it was not. */
  function Ready(shadow: bv32, read: Reading): Option<bv32> {
    if shadow != UNSET then Some(shadow)
    else if read == NoReading then None
    else Some(Loaded(shadow, read))
  }

  /** The outputs after one bit of a word was changed; without a word nothing is. */
  function Changed(o: Outputs, word: Option<bv32>, b: bv32, v: bool): Outputs
    requires b < 32
  {
    match word
    case None => o
    case Some(w) => Outputs(WithBit(w, b, v), Flags(WithBit(w, b, v)))
  }

  /** `node_digital_object_set_value`: the outputs after it. */
  function SetBit(o: Outputs, v: bool, b: bv32, read: Reading): Outputs
    requires b < 32
  {
    Changed(o, Ready(o.shadow, read), b, v)
  }

  /** `node_digital_object_get_out_value`. */
  function Refresh(o: Outputs, read: Reading): Outputs {
    if read == NoReading then o else Outputs(Loaded(o.shadow, read), Flags(Loaded(o.shadow, read)))
  }

  /**
   * The outputs after setting bit `b` to `v`: the other bits are those of the shadow or, where it was
   * unset, of the word that was read, and the flags show them; if nothing was read nothing changes.
   */
  ghost predicate OneBitSet(o: Outputs, v: bool, b: bv32, read: Reading, z: Outputs)
    requires b < 32
  {
    if o.shadow == UNSET && read == NoReading then z == o
    else
      var w := if o.shadow == UNSET && read.Word? then read.w else o.shadow;
      && (forall i: bv32 :: i < 32 ==> Bit(z.shadow, i) == if i == b then v else Bit(w, i))
      && Mirrored(z.flags, z.shadow)
  }

  lemma SetBitSets(o: Outputs, v: bool, b: bv32, read: Reading)
    requires b < 32
    ensures OneBitSet(o, v, b, read, SetBit(o, v, b, read))
  {
    var w := if o.shadow == UNSET && read.Word? then read.w else o.shadow;
    forall i: bv32 | i < 32
      ensures Bit(WithBit(w, b, v), i) == if i == b then v else Bit(w, i)
    {
      BitOfWithBit(w, b, v, i);
    }
    FlagsShow(WithBit(w, b, v));
  }

  /** The word that was read is the shadow, and its bits the flags; where nothing was read nothing changes. */
  ghost predicate Refreshed(o: Outputs, read: Reading, z: Outputs) {
    match read
    case NoReading => z == o
    case Word(w) => z.shadow == w && Mirrored(z.flags, w)
    case NoWord => z.shadow == o.shadow && Mirrored(z.flags, o.shadow)
  }

  lemma RefreshShows(o: Outputs, read: Reading)
    ensures Refreshed(o, read, Refresh(o, read))
  {
    FlagsShow(Loaded(o.shadow, read));
  }

  /** A call, with what its read gives; how its write ends makes no difference to the outputs. */
  datatype Call =
    | Set(v: bool, b: bv32, read: Reading)
    | Get(read: Reading)

  predicate GoodCall(c: Call) {
    c.Set? ==> c.b < 32
  }

  function Called(o: Outputs, c: Call): Outputs
    requires GoodCall(c)
  {
    match c
    case Set(v, b, read) => SetBit(o, v, b, read)
    case Get(read) => Refresh(o, read)
  }

  function Calls(o: Outputs, cs: seq<Call>): Outputs
    requires forall k :: 0 <= k < |cs| ==> GoodCall(cs[k])
  {
    if cs == [] then o else Called(Calls(o, cs[..|cs| - 1]), cs[|cs| - 1])
  }

  const INITIAL := Outputs(UNSET, Flags(0))

  ghost predicate Mirrors(o: Outputs) {
    o.shadow == UNSET || Mirrored(o.flags, o.shadow)
  }

  /**
   * Mirror: after any run of calls, with reads that fail or give other types, the shadow is unset or
   * flag `i` is its bit `i`.  `NodeDigitalObject.SetValue` is `SetBit` for every exchange of
   * its write, refused or not.
   */
  lemma {:induction false} MirrorAlways(cs: seq<Call>)
    requires forall k :: 0 <= k < |cs| ==> GoodCall(cs[k])
    ensures Mirrors(Calls(INITIAL, cs))
  {
    if cs != [] {
      MirrorAlways(cs[..|cs| - 1]);
      FlagsShow(Calls(INITIAL, cs).shadow);
    }
  }

  /** A single-bit write request that was made, and whether the bus took it. */
  datatype Request = Request(v: bool, b: bv32, sent: bool)

  /** The last value requested for a bit. */
  function LastValue(made: seq<Request>, i: bv32): Option<bool> {
    if made == [] then None
    else if made[|made| - 1].b == i then Some(made[|made| - 1].v)
    else LastValue(made[..|made| - 1], i)
  }

  /** Bit `i` of `x0` overridden by the last value requested for it. */
  predicate Expected(x0: bv32, made: seq<Request>, i: bv32)
    requires i < 32
  {
    match LastValue(made, i)
    case None => Bit(x0, i)
    case Some(v) => v
  }

  /** `x` is `x0` overridden by the last value requested for each bit. */
  ghost predicate Overridden(x: bv32, x0: bv32, made: seq<Request>) {
    forall i: bv32 :: i < 32 ==> Bit(x, i) == Expected(x0, made, i)
  }

  lemma ExpectedNext(x: bv32, x0: bv32, made: seq<Request>, r: Request, i: bv32)
    requires r.b < 32 && i < 32 && Bit(x, i) == Expected(x0, made, i)
    ensures Bit(WithBit(x, r.b, r.v), i) == Expected(x0, made + [r], i)
  {
    BitOfWithBit(x, r.b, r.v, i);
    assert (made + [r])[..|made|] == made;
  }

  lemma OverrideNext(x: bv32, x0: bv32, made: seq<Request>, r: Request)
    requires Overridden(x, x0, made) && r.b < 32
    ensures Overridden(WithBit(x, r.b, r.v), x0, made + [r])
  {
    forall i: bv32 | i < 32
      ensures Bit(WithBit(x, r.b, r.v), i) == Expected(x0, made + [r], i)
    {
      assert Bit(x, i) == Expected(x0, made, i);
      ExpectedNext(x, x0, made, r, i);
    }
  }

  /** The requests up to the last one the bus took. */
  function Effective(made: seq<Request>): seq<Request> {
    if made == [] || made[|made| - 1].sent then made else Effective(made[..|made| - 1])
  }

  lemma EffectiveNext(made: seq<Request>, r: Request)
    ensures Effective(made + [r]) == if r.sent then made + [r] else Effective(made)
  {
    assert (made + [r])[..|made|] == made;
  }

  /** A word whose high half is not all ones never comes to look like the unset shadow. */
  predicate Distinct(x: bv32) {
    x & 0xFFFF_0000 != 0xFFFF_0000
  }

  lemma DistinctIsSet(x: bv32)
    requires Distinct(x)
    ensures x != UNSET
  {
  }
}
