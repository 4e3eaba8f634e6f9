/**
 * The shadow word has no mark of its own for "not loaded": all ones mean that.  Which first values of
 * the register make that a problem, and which do not.
 */
module Sentinel {
  import opened Bytes
  import opened Words
  import opened Wrappers
  import opened Client
  import opened Traces
  import opened Server
  import opened Transfers
  import opened Runs
  import opened Panel
  import opened OutputRegister
  import opened RegisterLimits

  /** The first word loaded is the register. */
  lemma {:induction false} FirstLoad(y: Board, cs: seq<SetCall>)
    requires Wired(y) && y.shadow == UNSET && GoodCalls(cs) && RightLoads(y, cs)
    ensures FirstWord(y, cs) in {None, Some(Register(y))}
    decreases |cs|
  {
    if cs != [] {
      LoadGives(y, cs[0].load);
      if LoadFrame(y, cs[0].load) == None {
        CallStep(y, cs[0]);
        FirstLoad(SetOutput(y, cs[0]), cs[1..]);
      }
    }
  }

  /**
   * With a first value whose high half is not all ones, and loads that read the register: the device
   * is read at most once, the shadow holds every request, and the register every request up to the
   * last one the bus took.
   */
  lemma DistinctRegister(y: Board, cs: seq<SetCall>)
    requires Fresh(y) && LowCalls(cs) && RightLoads(y, cs) && Distinct(Register(y))
    ensures var z := AfterCalls(y, cs);
            && |z.loads| <= 1
            && (z.made != [] ==> Overridden(z.shadow, Register(y), z.made))
            && LowOverridden(Register(z), Register(y), Effective(z.made), Width(y.entry.dataType))
            && z.server.dictionary ==
               (if Effective(z.made) == [] then y.server.dictionary
                else y.server.dictionary[KeyOf(y.entry) := Numeric(Held(z))])
  {
    FirstLoad(y, cs);
    LoadsBegin(y, cs);
    ShadowHoldsAll(y, cs);
    RunRightExactly(y, cs);
  }

  lemma ShortNumber(b: seq<byte>)
    requires 1 <= |b| <= 3
    ensures LittleEndian(b) < 0x100_0000
  {
    if |b| == 1 {
      LittleEndian1(b);
    } else if |b| == 2 {
      LittleEndian2(b);
    } else {
      LittleEndian3(b);
    }
  }

  lemma NoTop(n: nat, top: nat, rest: nat)
    requires n == 0x100_0000 * top + rest && n < 0x100_0000
    ensures top == 0
  {
  }

  lemma TopIsZero(w: bv32, n: nat)
    requires w as nat == n && n < 0x100_0000
    ensures w >> 24 == 0
  {
    TopOctet(w);
    NoTop(n, (w >> 24) as nat, (w & 0xFF_FFFF) as nat);
    SameNumberSameWord(w >> 24, 0);
  }

  lemma ShortIsDistinct(n: nat)
    requires n < 0x100_0000
    ensures Distinct(WordAt(n))
  {
    WordOfNat(n);
    TopIsZero(WordAt(n), n);
    TopIsDistinct(WordAt(n));
  }

  lemma TopIsDistinct(w: bv32)
    requires w >> 24 == 0
    ensures Distinct(w)
  {
  }

  /**
   * The digital node: its output entry has 16 bits, and the device answers with two bytes.  Whatever
   * they are, the register follows all requests up to the last one the bus took, and the device is
   * read once.
   */
  lemma DigitalRegister(y: Board, cs: seq<SetCall>)
    requires Fresh(y) && y.entry.dataType == 0x6 && |Held(y)| == 2 && LowCalls(cs) && RightLoads(y, cs)
    ensures var z := AfterCalls(y, cs);
            && |z.loads| <= 1
            && (z.made != [] ==> Overridden(z.shadow, Register(y), z.made))
            && (forall i: bv32 :: i < 16 ==> Bit(Register(z), i) == Expected(Register(y), Effective(z.made), i))
            && z.server.dictionary ==
               (if Effective(z.made) == [] then y.server.dictionary
                else y.server.dictionary[KeyOf(y.entry) := Numeric(Held(z))])
  {
    ShortNumber(Held(y));
    ShortIsDistinct(LittleEndian(Held(y)));
    DistinctRegister(y, cs);
  }

  /** A session whose reply comes at once, and one whose request the bus refuses. */
  const PROMPT := Session(true, 0, [], [Deliver(0, true)])
  const REFUSED := Session(false, 0, [], [])

  lemma PromptLoad(y: Board)
    requires Wired(y)
    ensures LoadReading(y, PROMPT) == Word(Register(y))
  {
    var w := OpenedBy(y.entry, ReadRequest(y.entry), y.server, PROMPT);
    assert Manners(READ_LIMIT)(w, Deliver(0, true));
    assert PROMPT.moves[1..] == [];
    assert Total(Delivered, []) == 0;
    UndisturbedLoad(y, PROMPT);
  }

  /** A request to set bit `b` that the bus refuses. */
  function RefusedSet(b: bv32): SetCall {
    SetCall(true, b, PROMPT, REFUSED)
  }

  /** What a refused request leaves behind. */
  lemma RefusedStep(y: Board, b: bv32)
    requires Wired(y) && b < 32
    ensures var z := SetOutput(y, RefusedSet(b));
            var w := if y.shadow != UNSET then y.shadow else Register(y);
            && Wired(z) && Register(z) == Register(y) && LoadsRight(y, RefusedSet(b))
            && z.shadow == WithBit(w, b, true) && z.made == y.made + [Request(true, b, false)]
            && |z.loads| == if y.shadow != UNSET then |y.loads| else |y.loads| + 1
  {
    PromptLoad(y);
    CallStep(y, RefusedSet(b));
  }

  function LowestZero(x: bv32): (b: bv32)
    requires !Distinct(x) && x != UNSET
    ensures b < 16 && !Bit(x, b)
  {
    if !Bit(x, 0) then 0 else if !Bit(x, 1) then 1 else if !Bit(x, 2) then 2 else if !Bit(x, 3) then 3
    else if !Bit(x, 4) then 4 else if !Bit(x, 5) then 5 else if !Bit(x, 6) then 6 else if !Bit(x, 7) then 7
    else if !Bit(x, 8) then 8 else if !Bit(x, 9) then 9 else if !Bit(x, 10) then 10 else if !Bit(x, 11) then 11
    else if !Bit(x, 12) then 12 else if !Bit(x, 13) then 13 else if !Bit(x, 14) then 14 else 15
  }

  lemma FillingGrows(x: bv32, b: bv32)
    requires !Distinct(x) && b < 16 && !Bit(x, b)
    ensures x < WithBit(x, b, true) && !Distinct(WithBit(x, b, true))
  {
  }

  predicate OnlySets(made: seq<Request>) {
    forall k :: 0 <= k < |made| ==> made[k].v
  }

  predicate Requested(made: seq<Request>, i: bv32) {
    exists k :: 0 <= k < |made| && made[k].b == i
  }

  lemma RequestedStays(made: seq<Request>, r: Request, i: bv32)
    requires Requested(made, i)
    ensures Requested(made + [r], i)
  {
    var k :| 0 <= k < |made| && made[k].b == i;
    assert (made + [r])[k] == made[k];
  }

  lemma {:induction false} LastIsSet(made: seq<Request>, i: bv32)
    requires OnlySets(made) && Requested(made, i)
    ensures LastValue(made, i) == Some(true)
  {
    if made[|made| - 1].b != i {
      var k :| 0 <= k < |made| && made[k].b == i;
      assert made[..|made| - 1][k] == made[k];
      LastIsSet(made[..|made| - 1], i);
    }
  }

  /** One more refused request, on a shadow that looks unset, loads the register once more. */
  lemma LostAfter(y: Board, b: bv32, z: bv32)
    requires Wired(y) && y.shadow == UNSET && OnlySets(y.made) && b < 16 && z < 16 && b != z
    requires Requested(y.made, z) && !Bit(Register(y), z)
    ensures var v := SetOutput(y, RefusedSet(b));
            && LoadsRight(y, RefusedSet(b)) && |v.loads| == |y.loads| + 1
            && LastValue(v.made, z) == Some(true) && !Bit(v.shadow, z)
  {
    RefusedStep(y, b);
    LastIsSet(y.made, z);
    BitOfWithBit(Register(y), b, true, z);
    assert (y.made + [Request(true, b, false)])[..|y.made|] == y.made;
  }

  lemma OneCall(y: Board, c: SetCall)
    requires c.b < 32
    ensures GoodCalls([c]) && AfterCalls(y, [c]) == SetOutput(y, c)
    ensures RightLoads(y, [c]) <==> LoadsRight(y, c)
  {
    assert [c][1..] == [];
    assert AfterCalls(SetOutput(y, c), []) == SetOutput(y, c) && RightLoads(SetOutput(y, c), []);
  }

  /** The device is read twice, and at the end output `z`, which was last set, is clear. */
  predicate Loses(y: Board, cs: seq<SetCall>, z: bv32)
    requires GoodCalls(cs) && z < 32
  {
    var v := AfterCalls(y, cs);
    && RightLoads(y, cs) && |v.loads| == 2
    && LastValue(v.made, z) == Some(true) && !Bit(v.shadow, z)
  }

  /** A run that loses one, after one more call. */
  lemma LosesFrom(y: Board, c: SetCall, rest: seq<SetCall>, z: bv32) returns (cs: seq<SetCall>)
    requires c.b < 16 && z < 32 && LoadsRight(y, c) && LowCalls(rest) && Loses(SetOutput(y, c), rest, z)
    ensures LowCalls(cs) && Loses(y, cs, z)
  {
    cs := [c] + rest;
    assert cs[1..] == rest;
  }

  lemma LosesAtOnce(y: Board, c: SetCall, z: bv32) returns (cs: seq<SetCall>)
    requires c.b < 16 && z < 32 && LoadsRight(y, c)
    requires var v := SetOutput(y, c); |v.loads| == 2 && LastValue(v.made, z) == Some(true) && !Bit(v.shadow, z)
    ensures LowCalls(cs) && Loses(y, cs, z)
  {
    cs := [c];
    OneCall(y, c);
  }

  /**
   * Setting one zero bit after the other by refused requests makes the shadow look unset; one request
   * more then loses the ones before it.
   */
  lemma {:induction false} FilledAndLost(y: Board, z: bv32) returns (cs: seq<SetCall>)
    requires Wired(y) && !Distinct(y.shadow) && OnlySets(y.made) && z < 16 && |y.loads| == 1
    requires Requested(y.made, z) && !Bit(Register(y), z)
    ensures LowCalls(cs) && Loses(y, cs, z)
    decreases !y.shadow
  {
    if y.shadow == UNSET {
      var last := RefusedSet(if z == 0 then 1 else 0);
      LostAfter(y, last.b, z);
      cs := LosesAtOnce(y, last, z);
    } else {
      var b := LowestZero(y.shadow);
      FillingGrows(y.shadow, b);
      RefusedStep(y, b);
      RequestedStays(y.made, Request(true, b, false), z);
      var rest := FilledAndLost(SetOutput(y, RefusedSet(b)), z);
      cs := LosesFrom(y, RefusedSet(b), rest, z);
    }
  }

  /**
   * A first value with a high half of ones and some zero bit below: refused requests for its zero
   * bits make the shadow look unset, the next request loads the register again, and a refused bit
   * is lost.
   */
  lemma RefusedBitLost(y: Board) returns (cs: seq<SetCall>)
    requires Fresh(y) && !Distinct(Register(y)) && Register(y) != UNSET
    ensures LowCalls(cs) && Loses(y, cs, LowestZero(Register(y)))
  {
    var z := LowestZero(Register(y));
    FillingGrows(Register(y), z);
    RefusedStep(y, z);
    var first := SetOutput(y, RefusedSet(z));
    assert first.made == [] + [Request(true, z, false)];
    assert first.made[0] == Request(true, z, false);
    var rest := FilledAndLost(first, z);
    cs := LosesFrom(y, RefusedSet(z), rest, z);
  }

  /** A session whose request is taken, and nothing more. */
  const TAKEN := Session(true, 0, [], [])

  const CLEARING := SetCall(false, 0, PROMPT, TAKEN)

  lemma Cleared(y: Board)
    requires Fresh(y) && Register(y) == UNSET
    ensures var z := SetOutput(y, CLEARING);
            && Wired(z) && LoadsRight(y, CLEARING) && z.shadow == 0xFFFF_FFFE && |z.loads| == 1
            && Register(z) == Cut(0xFFFF_FFFE, Width(y.entry.dataType)) && z.made == [Request(false, 0, true)]
  {
    PromptLoad(y);
    CallStep(y, CLEARING);
    assert WithBit(UNSET, 0, false) == 0xFFFF_FFFE;
    assert [] + [Request(false, 0, true)] == [Request(false, 0, true)];
  }

  lemma LastOfThree(a: Request, b: Request, c: Request)
    requires c.b != b.b
    ensures LastValue([a] + [b] + [c], b.b) == Some(b.v)
  {
    var made := [a] + [b] + [c];
    assert made[..2] == [a] + [b];
  }

  /** After the output was cleared: it is set again by a refused request, and one request more. */
  lemma ClearedAndLost(p: Board) returns (cs: seq<SetCall>)
    requires Wired(p) && p.shadow == 0xFFFF_FFFE && |p.loads| == 1 && p.made == [Request(false, 0, true)]
    requires Register(p) == Cut(0xFFFF_FFFE, Width(p.entry.dataType))
    ensures LowCalls(cs) && Loses(p, cs, 0)
  {
    RefusedStep(p, 0);
    assert WithBit(0xFFFF_FFFE, 0, true) == UNSET;
    var q := SetOutput(p, RefusedSet(0));
    RefusedStep(q, 1);
    LastOfThree(Request(false, 0, true), Request(true, 0, false), Request(true, 1, false));
    CutOfOnes(Width(p.entry.dataType));
    var last := LosesAtOnce(q, RefusedSet(1), 0);
    cs := LosesFrom(p, RefusedSet(0), last, 0);
  }

  /** A first value of all ones: clearing an output, setting it by a refused request, and one request more. */
  lemma RefusedBitLostAgain(y: Board) returns (cs: seq<SetCall>)
    requires Fresh(y) && Register(y) == UNSET
    ensures LowCalls(cs) && Loses(y, cs, 0)
  {
    Cleared(y);
    var p := SetOutput(y, CLEARING);
    assert SameEntry(p.entry, y.entry) by {
      CallStep(y, CLEARING);
    }
    var rest := ClearedAndLost(p);
    cs := LosesFrom(y, CLEARING, rest, 0);
  }

  lemma CutOfOnes(width: nat)
    ensures !Bit(WithBit(Cut(0xFFFF_FFFE, width), 1, true), 0)
  {
    BitOfWithBit(Cut(0xFFFF_FFFE, width), 1, true, 0);
  }

  /** Every request that was made is in the shadow. */
  ghost predicate NoneLost(z: Board, x0: bv32) {
    z.made != [] ==> Overridden(z.shadow, x0, z.made)
  }

  lemma LostBit(v: Board, x0: bv32, z: bv32)
    requires z < 32 && LastValue(v.made, z) == Some(true) && !Bit(v.shadow, z)
    ensures !NoneLost(v, x0)
  {
    assert Bit(v.shadow, z) != Expected(x0, v.made, z);
  }

  lemma LosingRun(y: Board) returns (cs: seq<SetCall>)
    requires Fresh(y) && !Distinct(Register(y))
    ensures LowCalls(cs) && RightLoads(y, cs)
    ensures |AfterCalls(y, cs).loads| == 2 && !NoneLost(AfterCalls(y, cs), Register(y))
  {
    var z: bv32 := 0;
    if Register(y) == UNSET {
      cs := RefusedBitLostAgain(y);
    } else {
      z := LowestZero(Register(y));
      cs := RefusedBitLost(y);
    }
    LostBit(AfterCalls(y, cs), Register(y), z);
  }

  /** An input: a device that answers with the four bytes of 0xFFFF_FFFE; output 0 is the one that is lost. */
  lemma FourByteInput(y: Board) returns (cs: seq<SetCall>)
    requires Fresh(y) && Held(y) == [0xFE, 0xFF, 0xFF, 0xFF]
    ensures Register(y) == 0xFFFF_FFFE && LowCalls(cs) && Loses(y, cs, 0)
  {
    LittleEndian4(Held(y));
    assert (0xFFFF_FFFE as bv32) as nat == 0xFFFF_FFFE;
    SameNumberSameWord(0xFFFF_FFFE, LittleEndian(Held(y)));
    cs := RefusedBitLost(y);
  }

  /**
   * Exactly the first values whose high half is not all ones are safe: for them no run of requests
   * for the 16 outputs, whatever the bus does, loses a request or reads the device twice, and for any
   * other some run does both.  Only an entry that is answered with four bytes can have another.
   */
  lemma DistinctExactly(y: Board)
    requires Fresh(y)
    ensures Distinct(Register(y)) <==>
            forall cs :: LowCalls(cs) && RightLoads(y, cs) ==> NoneLost(AfterCalls(y, cs), Register(y))
    ensures Distinct(Register(y)) <==>
            forall cs :: LowCalls(cs) && RightLoads(y, cs) ==> |AfterCalls(y, cs).loads| <= 1
    ensures !Distinct(Register(y)) ==> |Held(y)| == 4
  {
    if Distinct(Register(y)) {
      forall cs | LowCalls(cs) && RightLoads(y, cs)
        ensures NoneLost(AfterCalls(y, cs), Register(y)) && |AfterCalls(y, cs).loads| <= 1
      {
        DistinctRegister(y, cs);
      }
    } else {
      var cs := LosingRun(y);
      assert LowCalls(cs) && RightLoads(y, cs);
      if |Held(y)| <= 3 {
        ShortNumber(Held(y));
        ShortIsDistinct(LittleEndian(Held(y)));
      }
    }
  }
}
