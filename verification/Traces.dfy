/** What holds of a transaction loop over every trace of bus events. */
module Traces {
  import opened Wrappers
  import opened Segmentation
  import opened Client
  import opened Resets

  /** The fields a transaction never touches. */
  predicate SameEntry(a: IndexState, b: IndexState) {
    a.node == b.node && a.index == b.index && a.subindex == b.subindex && a.dataType == b.dataType
  }

  /** Frames that are not for a transaction with `node`, whatever its state. */
  predicate IsNoise(f: Frame, node: nat) {
    || f.id <= 0x580
    || f.id == 0x700
    || (f.id < 0x700 && (f.id % 128 != node || f.data[0] >= 0x80))
  }

  lemma ProcessKeeps(st: IndexState, f: Frame, writeOk: bool)
    ensures var p := Process(st, f, writeOk);
            && SameEntry(p.st, st)
            && (p.class_ != Done ==> p.st.value == st.value)
            && (st.text.Some? ==> p.st.text.Some? && p.class_ != Crashed)
            && |p.sent| == (if p.class_ == RestartTimer then 1 else 0)
  {
  }

  /** With an accepting bus a frame classifies as busy exactly when it is noise; noise changes nothing. */
  lemma BusyIsNoise(st: IndexState, f: Frame, writeOk: bool)
    ensures IsNoise(f, st.node) ==> Process(st, f, writeOk) == Processed(Busy, st, [])
    ensures writeOk ==> (Process(st, f, writeOk).class_ == Busy <==> IsNoise(f, st.node))
  {
  }

  lemma PassKeeps(st: IndexState, timer: int, limit: nat, e: Event)
    ensures var p := OnePass(st, timer, limit, e);
            && SameEntry(p.st, st)
            && (p.result != Completed ==> p.st.value == st.value)
            && (st.text.Some? ==> p.st.text.Some? && p.result != Faulted)
            && (p.result != Waiting ==> p.sent == [])
  {
    if e.Received? {
      ProcessKeeps(st, e.frame, e.writeOk);
    }
  }

  /**
   * All or nothing: over every trace the value changes only if the transaction completes, so after
   * a time-out or a node reset it is what it was, however many segments had come in.
   */
  lemma {:induction false} AllOrNothing(st: IndexState, timer: int, limit: nat, events: seq<Event>)
    ensures var r := Loop(st, timer, limit, events);
            SameEntry(r.st, st) && (r.result != Completed ==> r.st.value == st.value)
    decreases |events|
  {
    if events != [] {
      PassKeeps(st, timer, limit, events[0]);
      var p := OnePass(st, timer, limit, events[0]);
      if p.result == Waiting {
        AllOrNothing(p.st, p.timer, limit, events[1..]);
      }
    }
  }

  /**
   * A boot-up or heartbeat frame of any node ends the transaction at once, without a value: the call
   * succeeds, and nothing has changed since the frame before.
   */
  lemma SuccessWithoutValue(st: IndexState, timer: int, limit: nat, f: Frame, writeOk: bool, now: int, rest: seq<Event>)
    requires f.id > 0x700
    ensures var r := Loop(st, timer, limit, [Received(f, writeOk, now)] + rest);
            Succeeds(r.result) && r.st == st && r.sent == [] && r.consumed == 1
  {
    assert ([Received(f, writeOk, now)] + rest)[0] == Received(f, writeOk, now);
  }

  /** Draining a bus with one frame on it. */
  lemma DrainOne(f: Frame)
    ensures Reports([f]) == if 0x700 < f.id < 0x800 && NodeOf(f) < NODE_COUNT then [NodeOf(f)] else []
  {
    assert Reported([f], 0) == [];
    assert IsFirst([f], 0) <==> 0x700 < f.id < 0x800 && NodeOf(f) < NODE_COUNT;
  }

  /**
   * A boot-up or heartbeat frame that is drained and one that interrupts a call are reported alike,
   * except these: below 0x800, node 0 and node 124 are reported by the drain only; from 0x800 on,
   * nodes 1 to 123 are reported by the call only.
   */
  lemma DrainAndCallAgree(st: IndexState, f: Frame, writeOk: bool)
    requires f.id > 0x700
    ensures var drained := Reports([f]) == [NodeOf(f)];
            var called := Process(st, f, writeOk).class_ == NodeReseted;
            && (drained || Reports([f]) == [])
            && (drained && !called <==> f.id < 0x800 && NodeOf(f) in {0, 124})
            && (called && !drained <==> f.id >= 0x800 && 1 <= NodeOf(f) <= 123)
  {
    DrainOne(f);
  }

  /** A null string is read exactly for an upload segment that no initiate came before. */
  lemma CrashCondition(st: IndexState, f: Frame, writeOk: bool)
    ensures Process(st, f, writeOk).class_ == Crashed
            <==> && 0x580 < f.id < 0x700 && NodeOf(f) == st.node && f.data[0] < 0x20
                 && st.value.StrV? && st.text == None
  {
  }

  /** Once a transfer was begun on an index object, no later trace can make it read a null string. */
  lemma {:induction false} NoCrashAfterInitiate(st: IndexState, timer: int, limit: nat, events: seq<Event>)
    requires st.text.Some?
    ensures var r := Loop(st, timer, limit, events);
            r.st.text.Some? && r.result != Faulted
    decreases |events|
  {
    if events != [] {
      PassKeeps(st, timer, limit, events[0]);
      var p := OnePass(st, timer, limit, events[0]);
      if p.result == Waiting {
        NoCrashAfterInitiate(p.st, p.timer, limit, events[1..]);
      }
    }
  }

  /** The trace without its noise. */
  function Strip(events: seq<Event>, node: nat): seq<Event> {
    if events == [] then []
    else if events[0].Received? && IsNoise(events[0].frame, node) then Strip(events[1..], node)
    else [events[0]] + Strip(events[1..], node)
  }

  lemma {:induction false} StripKeepsRun(st: IndexState, timer: int, limit: nat, events: seq<Event>)
    ensures var r := Loop(st, timer, limit, events);
            var q := Loop(st, timer, limit, Strip(events, st.node));
            r.result == q.result && r.st == q.st && r.timer == q.timer && r.sent == q.sent
    decreases |events|
  {
    if events != [] {
      var e := events[0];
      var p := OnePass(st, timer, limit, e);
      PassKeeps(st, timer, limit, e);
      if p.result == Waiting {
        StripKeepsRun(p.st, p.timer, limit, events[1..]);
      }
      if e.Received? && IsNoise(e.frame, st.node) {
        BusyIsNoise(st, e.frame, e.writeOk);
        assert p.sent + Loop(st, timer, limit, events[1..]).sent == Loop(st, timer, limit, events[1..]).sent;
      } else {
        assert Strip(events, st.node)[0] == e;
        assert Strip(events, st.node)[1..] == Strip(events[1..], st.node);
      }
    }
  }

  /**
   * Stuttering: two traces that differ only in noise, inserted or dropped anywhere, end with the
   * same outcome, the same index state and the same frames sent.
   */
  lemma NoiseIsInvisible(st: IndexState, timer: int, limit: nat, a: seq<Event>, b: seq<Event>)
    requires Strip(a, st.node) == Strip(b, st.node)
    ensures var r := Loop(st, timer, limit, a);
            var q := Loop(st, timer, limit, b);
            r.result == q.result && r.st == q.st && r.sent == q.sent
  {
    StripKeepsRun(st, timer, limit, a);
    StripKeepsRun(st, timer, limit, b);
  }

  /** The passes over a trace, as if none of them ended the loop. */
  function Passes(st: IndexState, timer: int, limit: nat, events: seq<Event>): (ps: seq<Pass>)
    ensures |ps| == |events|
    decreases |events|
  {
    if events == [] then []
    else
      var p := OnePass(st, timer, limit, events[0]);
      [p] + Passes(p.st, p.timer, limit, events[1..])
  }

  /** Index state and timer before event `k`, as long as no earlier event ended the loop. */
  function Before(st: IndexState, timer: int, limit: nat, events: seq<Event>, k: nat): (IndexState, int)
    requires k <= |events|
  {
    if k == 0 then (st, timer)
    else
      var p := Passes(st, timer, limit, events)[k - 1];
      (p.st, p.timer)
  }

  /** The class of event `k`, when it is a frame. */
  function ClassAt(st: IndexState, timer: int, limit: nat, events: seq<Event>, k: nat): Class
    requires k < |events| && events[k].Received?
  {
    Process(Before(st, timer, limit, events, k).0, events[k].frame, events[k].writeOk).class_
  }

  /** Event `k` keeps the loop going: a tick within the limit, or a frame that is busy or restarts the timer. */
  predicate GoesOn(st: IndexState, timer: int, limit: nat, events: seq<Event>, k: nat)
    requires k < |events|
  {
    match events[k]
    case Idle(now) => !Expired(now - Before(st, timer, limit, events, k).1, limit)
    case Received(_, _, _) => ClassAt(st, timer, limit, events, k) in {RestartTimer, Busy}
  }

  /** Event `k` is the first one to end the loop. */
  predicate EndsAt(st: IndexState, timer: int, limit: nat, events: seq<Event>, k: nat)
    requires k < |events|
  {
    && !GoesOn(st, timer, limit, events, k)
    && forall j | 0 <= j < k :: GoesOn(st, timer, limit, events, j)
  }

  /** Pass `k` is the first one with a result. */
  predicate StopsAt(ps: seq<Pass>, k: nat) {
    k < |ps| && ps[k].result != Waiting && forall j :: 0 <= j < k ==> ps[j].result == Waiting
  }

  /** `r` is how a loop with these passes ends. */
  predicate EndOf(ps: seq<Pass>, r: Run) {
    if r.result == Waiting then r.consumed == |ps| && forall k :: 0 <= k < |ps| ==> ps[k].result == Waiting
    else
      && 1 <= r.consumed && StopsAt(ps, r.consumed - 1)
      && r.result == ps[r.consumed - 1].result && r.st == ps[r.consumed - 1].st
  }

  lemma EndOfNext(p: Pass, ps: seq<Pass>, r: Run)
    requires p.result == Waiting && EndOf(ps, r)
    ensures EndOf([p] + ps, After(p.sent, 1, r))
  {
    if r.result != Waiting {
      assert ([p] + ps)[r.consumed] == ps[r.consumed - 1];
    }
  }

  lemma {:induction false} LoopIsPasses(st: IndexState, timer: int, limit: nat, events: seq<Event>)
    ensures EndOf(Passes(st, timer, limit, events), Loop(st, timer, limit, events))
    decreases |events|
  {
    if events != [] {
      var p := OnePass(st, timer, limit, events[0]);
      if p.result == Waiting {
        LoopIsPasses(p.st, p.timer, limit, events[1..]);
        EndOfNext(p, Passes(p.st, p.timer, limit, events[1..]), Loop(p.st, p.timer, limit, events[1..]));
      }
    }
  }

  lemma BeforeShifts(st: IndexState, timer: int, limit: nat, events: seq<Event>, k: nat)
    requires 1 <= k <= |events|
    ensures var p := OnePass(st, timer, limit, events[0]);
            Before(st, timer, limit, events, k) == Before(p.st, p.timer, limit, events[1..], k - 1)
  {
  }

  lemma {:induction false} PassAt(st: IndexState, timer: int, limit: nat, events: seq<Event>, k: nat)
    requires k < |events|
    ensures var b := Before(st, timer, limit, events, k);
            Passes(st, timer, limit, events)[k] == OnePass(b.0, b.1, limit, events[k])
    decreases |events|
  {
    if k > 0 {
      var p := OnePass(st, timer, limit, events[0]);
      BeforeShifts(st, timer, limit, events, k);
      PassAt(p.st, p.timer, limit, events[1..], k - 1);
    }
  }

  /** Event `k` is a frame that completes the call, or resets the node. */
  predicate CompletesAt(st: IndexState, timer: int, limit: nat, events: seq<Event>, k: nat)
    requires k < |events|
  {
    events[k].Received? && ClassAt(st, timer, limit, events, k) in {Done, NodeReseted}
  }

  lemma PassMeans(st: IndexState, timer: int, limit: nat, e: Event)
    ensures var p := OnePass(st, timer, limit, e);
            && (Succeeds(p.result) <==> e.Received? && Process(st, e.frame, e.writeOk).class_ in {Done, NodeReseted})
            && (p.result == Waiting <==>
                match e
                case Idle(now) => !Expired(now - timer, limit)
                case Received(f, writeOk, _) => Process(st, f, writeOk).class_ in {RestartTimer, Busy})
  {
  }

  /** What event `k` means for the loop, by its pass. */
  lemma EventMeans(st: IndexState, timer: int, limit: nat, events: seq<Event>, k: nat)
    requires k < |events|
    ensures var ps := Passes(st, timer, limit, events);
            && (GoesOn(st, timer, limit, events, k) <==> ps[k].result == Waiting)
            && (CompletesAt(st, timer, limit, events, k) <==> Succeeds(ps[k].result))
  {
    PassAt(st, timer, limit, events, k);
    var b := Before(st, timer, limit, events, k);
    PassMeans(b.0, b.1, limit, events[k]);
  }

  lemma EndsIsStops(st: IndexState, timer: int, limit: nat, events: seq<Event>, k: nat)
    requires k < |events|
    ensures EndsAt(st, timer, limit, events, k) <==> StopsAt(Passes(st, timer, limit, events), k)
  {
    forall j | 0 <= j < |events|
      ensures GoesOn(st, timer, limit, events, j) <==> Passes(st, timer, limit, events)[j].result == Waiting
    {
      EventMeans(st, timer, limit, events, j);
    }
  }

  /**
   * Where a loop ends: it consumes exactly the events up to the first one that does not keep it
   * going, and its state and result are those of that pass; without such an event it is still waiting.
   */
  lemma LoopEnds(st: IndexState, timer: int, limit: nat, events: seq<Event>)
    ensures var r := Loop(st, timer, limit, events);
            if r.result == Waiting then
              r.consumed == |events| && forall k | 0 <= k < |events| :: GoesOn(st, timer, limit, events, k)
            else
              && 1 <= r.consumed && EndsAt(st, timer, limit, events, r.consumed - 1)
              && var b := Before(st, timer, limit, events, r.consumed - 1);
                 var p := OnePass(b.0, b.1, limit, events[r.consumed - 1]);
                 r.result == p.result && r.st == p.st
  {
    LoopIsPasses(st, timer, limit, events);
    var r := Loop(st, timer, limit, events);
    if r.result == Waiting {
      forall k | 0 <= k < |events|
        ensures GoesOn(st, timer, limit, events, k)
      {
        EventMeans(st, timer, limit, events, k);
      }
    } else {
      EndsIsStops(st, timer, limit, events, r.consumed - 1);
      PassAt(st, timer, limit, events, r.consumed - 1);
    }
  }

  /** Event `k` ends the call, with success. */
  predicate SucceedsAt(st: IndexState, timer: int, limit: nat, events: seq<Event>, k: nat) {
    k < |events| && CompletesAt(st, timer, limit, events, k) && EndsAt(st, timer, limit, events, k)
  }

  lemma SucceedsIs(st: IndexState, timer: int, limit: nat, events: seq<Event>, k: nat)
    ensures var ps := Passes(st, timer, limit, events);
            SucceedsAt(st, timer, limit, events, k) <==> StopsAt(ps, k) && Succeeds(ps[k].result)
  {
    if k < |events| {
      EventMeans(st, timer, limit, events, k);
      EndsIsStops(st, timer, limit, events, k);
    }
  }

  /**
   * A call succeeds exactly when some frame classifies as done or as a node reset while every event
   * before it keeps the loop going: no expired tick comes first.
   */
  lemma LoopSucceeds(st: IndexState, timer: int, limit: nat, events: seq<Event>)
    ensures Succeeds(Loop(st, timer, limit, events).result) <==> exists k :: SucceedsAt(st, timer, limit, events, k)
  {
    LoopIsPasses(st, timer, limit, events);
    if Succeeds(Loop(st, timer, limit, events).result) {
      SucceedsIs(st, timer, limit, events, Loop(st, timer, limit, events).consumed - 1);
    }
    if k :| SucceedsAt(st, timer, limit, events, k) {
      SucceedsIs(st, timer, limit, events, k);
    }
  }

  predicate Restarts(st: IndexState, timer: int, limit: nat, events: seq<Event>, k: nat)
    requires k < |events|
  {
    events[k].Received? && ClassAt(st, timer, limit, events, k) == RestartTimer
  }

  /** The last frame before event `k` that restarted the timer. */
  function LastRestart(st: IndexState, timer: int, limit: nat, events: seq<Event>, k: nat): (i: Option<nat>)
    requires k <= |events|
    ensures i.Some? ==> i.value < k && Restarts(st, timer, limit, events, i.value)
  {
    if k == 0 then None
    else if Restarts(st, timer, limit, events, k - 1) then Some(k - 1)
    else LastRestart(st, timer, limit, events, k - 1)
  }

  lemma PassTimer(st: IndexState, timer: int, limit: nat, e: Event)
    ensures OnePass(st, timer, limit, e).timer ==
            if e.Received? && Process(st, e.frame, e.writeOk).class_ == RestartTimer then e.now else timer
  {
  }

  lemma TimerStep(st: IndexState, timer: int, limit: nat, events: seq<Event>, k: nat)
    requires k < |events|
    ensures Before(st, timer, limit, events, k + 1).1 ==
            if Restarts(st, timer, limit, events, k) then events[k].now else Before(st, timer, limit, events, k).1
  {
    var b := Before(st, timer, limit, events, k);
    PassAt(st, timer, limit, events, k);
    PassTimer(b.0, b.1, limit, events[k]);
  }

  /** A tick is measured from the last frame that restarted the timer, or from the start. */
  lemma {:induction false} TimerIsLastRestart(st: IndexState, timer: int, limit: nat, events: seq<Event>, k: nat)
    requires k <= |events|
    ensures Before(st, timer, limit, events, k).1 ==
            match LastRestart(st, timer, limit, events, k)
            case None => timer
            case Some(i) => events[i].now
  {
    if k > 0 {
      TimerIsLastRestart(st, timer, limit, events, k - 1);
      TimerStep(st, timer, limit, events, k - 1);
    }
  }

  /** The time limit is kept at every elapsed time except at one second sharp. */
  lemma ExpiresPastLimit(elapsed: int, limit: nat)
    requires 0 <= elapsed && limit < 1_000_000
    ensures Expired(elapsed, limit) <==> elapsed > limit && elapsed != 1_000_000
  {
  }

  /** The time tick `k` is measured from. */
  function Since(st: IndexState, start: int, limit: nat, events: seq<Event>, k: nat): int
    requires k <= |events|
  {
    match LastRestart(st, start, limit, events, k)
    case None => start
    case Some(i) => events[i].now
  }

  /**
   * A call that looked at `consumed` events kept the time limit: a tick more than `limit` microseconds
   * after the last frame that restarted the timer fails it at once, except at one second sharp, and
   * after any other tick it goes on.
   */
  predicate KeepsLimit(st: IndexState, start: int, limit: nat, events: seq<Event>, ok: bool, consumed: nat) {
    && consumed <= |events|
    && forall k | 0 <= k < consumed && events[k].Idle? ::
         var e := events[k].now - Since(st, start, limit, events, k);
         e >= 0 ==> if e > limit && e != 1_000_000 then !ok && consumed == k + 1
                    else k + 1 < consumed || k + 1 == |events|
  }

  lemma TickPass(st: IndexState, start: int, limit: nat, events: seq<Event>, k: nat)
    requires limit < 1_000_000 && k < |events| && events[k].Idle?
    ensures var e := events[k].now - Since(st, start, limit, events, k);
            e >= 0 ==> Passes(st, start, limit, events)[k].result ==
                       if e > limit && e != 1_000_000 then Failed else Waiting
  {
    PassAt(st, start, limit, events, k);
    TimerIsLastRestart(st, start, limit, events, k);
    var e := events[k].now - Since(st, start, limit, events, k);
    if e >= 0 {
      ExpiresPastLimit(e, limit);
    }
  }

  lemma LoopStops(ps: seq<Pass>, r: Run, k: nat)
    requires EndOf(ps, r) && k < r.consumed && k < |ps|
    ensures if ps[k].result == Waiting then k + 1 < r.consumed || k + 1 == |ps|
            else r.result == ps[k].result && r.consumed == k + 1
  {
  }

  lemma LoopKeepsLimit(st: IndexState, start: int, limit: nat, events: seq<Event>)
    requires limit < 1_000_000
    ensures var r := Loop(st, start, limit, events);
            KeepsLimit(st, start, limit, events, Succeeds(r.result), r.consumed)
  {
    var r := Loop(st, start, limit, events);
    LoopIsPasses(st, start, limit, events);
    forall k | 0 <= k < r.consumed && events[k].Idle?
      ensures var e := events[k].now - Since(st, start, limit, events, k);
              e >= 0 ==> if e > limit && e != 1_000_000 then !Succeeds(r.result) && r.consumed == k + 1
                         else k + 1 < r.consumed || k + 1 == |events|
    {
      TickPass(st, start, limit, events, k);
      LoopStops(Passes(st, start, limit, events), r, k);
    }
  }

  /** A frame that announces the reset of a node to a waiting call. */
  predicate IsReset(e: Event) {
    e.Received? && e.frame.id > 0x700 && 0 < e.frame.id % 128 < 124
  }

  /** The reset that ended a call after `consumed` events, as a list of nodes. */
  function EndingReset(events: seq<Event>, consumed: nat): seq<nat>
    requires consumed <= |events|
  {
    if consumed > 0 && IsReset(events[consumed - 1]) then [events[consumed - 1].frame.id % 128] else []
  }

  lemma PassReports(st: IndexState, timer: int, limit: nat, e: Event)
    ensures var result := OnePass(st, timer, limit, e).result;
            if IsReset(e) then result == Reseted(e.frame.id) else !result.Reseted?
  {
  }

  /** A loop ends with the reset of a node exactly if its last event announces one, of that node. */
  lemma LoopReports(st: IndexState, start: int, limit: nat, events: seq<Event>)
    ensures var r := Loop(st, start, limit, events);
            EndingReset(events, r.consumed) == if r.result.Reseted? then [r.result.id % 128] else []
  {
    LoopIsPasses(st, start, limit, events);
    var r := Loop(st, start, limit, events);
    if r.consumed > 0 {
      var b := Before(st, start, limit, events, r.consumed - 1);
      PassAt(st, start, limit, events, r.consumed - 1);
      PassReports(b.0, b.1, limit, events[r.consumed - 1]);
    }
  }

  /** The frame asks the node's server for an entry. */
  predicate AsksFor(f: Frame, node: nat, index: nat, subindex: nat) {
    && f.id == 0x600 + node % 128
    && f.data == [0x40, index % 256, index / 256 % 256, subindex % 256, 0, 0, 0, 0]
  }

  /** What a read does on the bus: one request first, then up to 200 ms for each answer. */
  lemma ReadOnBus(st: IndexState, x: Exchange)
    ensures var r := ReadRun(st, x);
            && r.consumed <= |x.events|
            && EndingReset(x.events, r.consumed) == (if r.result.Reseted? then [r.result.id % 128] else [])
            && (x.requestOk ==>
                  && r.sent != [] && AsksFor(r.sent[0], st.node, st.index, st.subindex)
                  && KeepsLimit(st, x.start, 200_000, x.events, Succeeds(r.result), r.consumed))
  {
    if x.requestOk {
      LoopKeepsLimit(st, x.start, 200_000, x.events);
      LoopReports(st, x.start, 200_000, x.events);
    }
  }

  /** A write allows 100 ms. */
  lemma WriteOnBus(st: IndexState, x: Exchange)
    ensures var r := WriteRun(st, x);
            && r.consumed <= |x.events|
            && EndingReset(x.events, r.consumed) == (if r.result.Reseted? then [r.result.id % 128] else [])
            && (x.requestOk ==>
                  && r.sent != [] && r.sent[0] == WriteRequest(st)
                  && KeepsLimit(st, x.start, 100_000, x.events, Succeeds(r.result), r.consumed))
  {
    if x.requestOk {
      LoopKeepsLimit(st, x.start, 100_000, x.events);
      LoopReports(st, x.start, 100_000, x.events);
    }
  }

  /** The pass a step of a string transfer amounts to when the bus takes the answer. */
  function PassOf(r: Step, node: nat, timer: int, now: int): Pass
    requires !r.Crash? && (r.Send? ==> |r.data| == 8)
  {
    match r
    case Send(st, data) => Pass(Waiting, st, now, [CanFrame(RequestId(node), data)])
    case Stop(st) => Pass(Completed, st, timer, [])
  }

  /** A pass on a frame of a string transfer, by what `ToggleStep` makes of it. */
  lemma TransferPass(st: IndexState, timer: int, limit: nat, f: Frame, now: int)
    requires 0x580 < f.id < 0x700 && NodeOf(f) == st.node
    requires RouteOf(f.data[0], st.dataType).Segmented? && !ToggleStep(st, f.data).Crash?
    ensures OnePass(st, timer, limit, Received(f, true, now)) ==
            PassOf(ToggleStep(st, f.data), st.node, timer, now)
  {
  }
}
