/** A string write through the loop, against a server, is one assignment to one dictionary entry. */
module Writing {
  import opened Bytes
  import opened Wrappers
  import opened Text
  import opened Values
  import opened Segmentation
  import opened Client
  import opened Traces
  import opened Discipline
  import opened Server
  import opened Transfers

  /** An index object holding a string, of a node that has a server. */
  predicate Writable(st: IndexState) {
    ValidState(st) && st.value.StrV? && 1 <= st.node < 128
  }

  /** The segments the server takes: a counting one stops when it has the declared number of bytes. */
  function Quota(counts: bool, s: seq<byte>): (q: nat)
    ensures q <= Pieces(|s|) && (s != [] ==> q >= 1) && 7 * q < |s| + 7
    ensures counts && q > 0 ==> 7 * (q - 1) < DeclaredSize(s) <= 7 * q
  {
    if counts then Pieces(DeclaredSize(s)) else Pieces(|s|)
  }

  /**
   * The server takes every segment.  For one that counts, the declared size counts the first byte
   * of the last segment; it cuts off a longer string.
   */
  predicate Fits(counts: bool, s: seq<byte>) {
    Quota(counts, s) == Pieces(|s|)
  }

  /**
   * The server learns that the download is complete.  One that waits for the last bit does so only
   * if there is a segment with that bit, or nothing to send.
   */
  predicate Ends(counts: bool, s: seq<byte>) {
    counts || s == [] || |s| % 7 != 0
  }

  /** What the server stores. */
  function Accepted(counts: bool, s: seq<byte>): seq<byte> {
    s[..Min(7 * Quota(counts, s), |s|)]
  }

  /** Which strings fit, and that just those are stored as they are. */
  lemma FitsExactly(counts: bool, s: seq<byte>)
    ensures Fits(counts, s) <==> Accepted(counts, s) == s
    ensures !counts ==> Fits(counts, s)
    ensures Ascii(s) && counts ==> (Fits(counts, s) <==> |s| <= 4095)
  {
    if Ascii(s) {
      DeclaredSizeAscii(s);
    }
  }

  function Written(server: SdoServer, st: IndexState): map<Key, Entry> {
    server.dictionary[KeyOf(st) := Characters(Accepted(server.counts, Chars(st.value)))]
  }

  /** The server when `j` segments are with it. */
  function ServerAt(server: SdoServer, st: IndexState, j: nat): SdoServer {
    var s := Chars(st.value);
    if j < Quota(server.counts, s) || !Ends(server.counts, s) then
      server.(transfer := Downloading(KeyOf(st), DeclaredSize(s), s[..Min(7 * j, |s|)], j % 2))
    else server.(dictionary := Written(server, st), transfer := NoTransfer)
  }

  /** The world after `j` deliveries: `j` segments are with the server and their reply is waiting. */
  predicate Phase(w: World, st: IndexState, server: SdoServer, j: nat) {
    var s := Chars(st.value);
    && j <= Quota(server.counts, s) && w.result == Waiting && w.server == ServerAt(server, st, j)
    && SameEntry(w.st, st) && w.st.value == st.value && ValidState(w.st)
    && |w.inbox| == 1 && w.inbox[0].id == ReplyId(st.node)
    && (if j == 0 then w.inbox[0].data[0] == 0x60
        else && w.inbox[0].data[0] == 0x20 + 16 * ((j - 1) % 2)
             && w.st.text == Some(s[Min(7 * j, |s|)..]) && w.st.toggle == Flipped(DOWNLOAD, j))
  }

  /** The server accepts the initiate request; a declared size of zero completes the write at once. */
  lemma ServerOpens(st: IndexState, server: SdoServer)
    requires Writable(st)
    ensures var r := Serve(server, WriteRequest(st).data);
            && r.reply.Some? && r.reply.value[0] == 0x60 && r.server == ServerAt(server, st, 0)
  {
    var s := Chars(st.value);
    KeyOfRequest(st, 0x21, DeclaredSize(s));
    assert WriteRequest(st) == Request(st, 0x21, DeclaredSize(s));
    var data := WriteRequest(st).data;
    assert Serve(server, data) == InitiateDownload(server, data);
    assert s[..0] == [];
  }

  lemma WriteOpens(st: IndexState, server: SdoServer, start: int)
    requires Writable(st)
    ensures Phase(Opened(st, WriteRequest(st), server, start, []), st, server, 0)
  {
    ServerOpens(st, server);
    OneExchange(World(Waiting, st, start, server, []), WriteRequest(st));
  }

  /** What the client sends for the reply that waits in phase `j`. */
  lemma ClientInPhase(w: World, st: IndexState, server: SdoServer, j: nat, now: int)
    requires Writable(st) && Phase(w, st, server, j)
    ensures var s := Chars(st.value);
            var rest := s[Min(7 * j, |s|)..];
            var p := OnePass(w.st, w.timer, WRITE_LIMIT, Received(w.inbox[0], true, now));
            && SameEntry(p.st, st) && p.st.value == st.value && ValidState(p.st)
            && (rest == [] ==> p.result == Completed && p.sent == [])
            && (rest != [] ==>
                  && p.result == Waiting
                  && p.sent == [CanFrame(RequestId(st.node), SegmentOf(Flipped(DOWNLOAD, j), rest))]
                  && p.st.text == Some(rest[Chunk(rest)..]) && p.st.toggle == Flipped(DOWNLOAD, j + 1))
  {
    var s := Chars(st.value);
    assert s[0..] == s;
    FlipFlip(DOWNLOAD, j);
    var data := w.inbox[0].data;
    ToggleStepValid(w.st, data);
    assert NodeOf(w.inbox[0]) == st.node;
    assert RouteOf(data[0], st.dataType) == Segmented(Done);
  }

  /** What segment `j` carries, and what the server has with it. */
  lemma SegmentAdds(s: seq<byte>, j: nat)
    requires 7 * j < |s|
    ensures var f := SegmentOf(Flipped(DOWNLOAD, j), s[7 * j..]);
            && f[0] / 32 == 0 && f[0] / 16 % 2 == j % 2
            && s[..Min(7 * j, |s|)] + Carried(f) == s[..Min(7 * (j + 1), |s|)]
            && (LastBit(f) <==> |s| < 7 * (j + 1))
  {
    var rest := s[7 * j..];
    CarriedOfSegment(Flipped(DOWNLOAD, j), rest);
    HeaderBits(Flipped(DOWNLOAD, j), rest);
    assert s[..7 * j] + rest[..Chunk(rest)] == s[..Min(7 * (j + 1), |s|)];
  }

  /** The server takes segment `j` and waits for more, or is done with its last one. */
  lemma ServerTakesSegment(st: IndexState, server: SdoServer, j: nat)
    requires j < Quota(server.counts, Chars(st.value))
    ensures var s := Chars(st.value);
            var r := Serve(ServerAt(server, st, j), SegmentOf(Flipped(DOWNLOAD, j), s[7 * j..]));
            && r.reply.Some? && r.reply.value[0] == 0x20 + 16 * (j % 2)
            && r.server == ServerAt(server, st, j + 1)
  {
    SegmentAdds(Chars(st.value), j);
    LastSegment(server.counts, Chars(st.value), j);
  }

  /** The segment after which the server is done. */
  lemma LastSegment(counts: bool, s: seq<byte>, j: nat)
    requires j < Quota(counts, s)
    ensures 7 * j < |s|
    ensures |s| < 7 * (j + 1) || (counts && Min(7 * (j + 1), |s|) >= DeclaredSize(s))
            <==> j + 1 >= Quota(counts, s) && Ends(counts, s)
  {
  }

  lemma WriteAdvances(w: World, st: IndexState, server: SdoServer, j: nat, m: Move)
    requires Writable(st) && Phase(w, st, server, j) && j < Quota(server.counts, Chars(st.value))
    requires m.Deliver? && m.taken
    ensures Phase(Next(w, WRITE_LIMIT, m), st, server, j + 1)
  {
    var s := Chars(st.value);
    var rest := s[7 * j..];
    ClientInPhase(w, st, server, j, m.now);
    ServerTakesSegment(st, server, j);
    DeliverMove(w, WRITE_LIMIT, m);
    assert rest[Chunk(rest)..] == s[Min(7 * (j + 1), |s|)..];
    var p := OnePass(w.st, w.timer, WRITE_LIMIT, Received(w.inbox[0], true, m.now));
    OneExchange(World(p.result, p.st, p.timer, w.server, []), p.sent[0]);
    assert p.sent == [p.sent[0]];
  }

  /** The client has sent more than the server wanted and waits for an answer that never comes. */
  predicate Stalled(w: World, st: IndexState, server: SdoServer) {
    && w.result == Waiting && SameEntry(w.st, st)
    && w.server == server.(dictionary := Written(server, st), transfer := NoTransfer)
    && |w.inbox| <= 1 && forall f | f in w.inbox :: IsNoise(f, st.node)
  }

  predicate Finished(w: World, st: IndexState, server: SdoServer) {
    && w.result == Completed && w.st.value == st.value
    && w.server == ServerAt(server, st, Quota(server.counts, Chars(st.value)))
  }

  lemma WriteEnds(w: World, st: IndexState, server: SdoServer, m: Move)
    requires Writable(st) && Phase(w, st, server, Quota(server.counts, Chars(st.value))) && m.Deliver? && m.taken
    ensures var v := Next(w, WRITE_LIMIT, m);
            if Fits(server.counts, Chars(st.value)) then Finished(v, st, server) else Stalled(v, st, server)
  {
    var s := Chars(st.value);
    var q := Quota(server.counts, s);
    ClientInPhase(w, st, server, q, m.now);
    DeliverMove(w, WRITE_LIMIT, m);
    if !Fits(server.counts, s) {
      var p := OnePass(w.st, w.timer, WRITE_LIMIT, Received(w.inbox[0], true, m.now));
      HeaderBits(Flipped(DOWNLOAD, q), s[7 * q..]);
      FlipFlip(DOWNLOAD, q);
      OneExchange(World(p.result, p.st, p.timer, w.server, []), p.sent[0]);
      assert p.sent == [p.sent[0]];
    }
  }

  lemma StalledStays(w: World, st: IndexState, server: SdoServer, m: Move)
    requires Stalled(w, st, server) && m.Deliver? && m.taken
    ensures Stalled(Next(w, WRITE_LIMIT, m), st, server)
  {
    if w.inbox != [] {
      DeliverMove(w, WRITE_LIMIT, m);
      assert w.inbox[0] in w.inbox;
      BusyIsNoise(w.st, w.inbox[0], true);
    }
  }

  /** The world after `d` deliveries. */
  predicate WorldAfter(w: World, st: IndexState, server: SdoServer, d: nat) {
    if d <= Quota(server.counts, Chars(st.value)) then Phase(w, st, server, d)
    else if Fits(server.counts, Chars(st.value)) then Finished(w, st, server)
    else Stalled(w, st, server)
  }

  lemma WriteDelivery(w: World, st: IndexState, server: SdoServer, d: nat, m: Move)
    requires Writable(st) && WorldAfter(w, st, server, d) && w.result == Waiting && m.Deliver? && m.taken
    ensures WorldAfter(Next(w, WRITE_LIMIT, m), st, server, d + 1)
  {
    var q := Quota(server.counts, Chars(st.value));
    if d < q {
      WriteAdvances(w, st, server, d, m);
    } else if d == q {
      WriteEnds(w, st, server, m);
    } else {
      StalledStays(w, st, server, m);
    }
  }

  lemma SameNode(w: World, st: IndexState, server: SdoServer, d: nat)
    requires WorldAfter(w, st, server, d) && w.result == Waiting
    ensures w.st.node == st.node
  {
  }

  lemma WriteAdvancing(st: IndexState, server: SdoServer)
    requires Writable(st)
    ensures Advances(WRITE_LIMIT, (v: World, d: nat) => WorldAfter(v, st, server, d), st.node)
  {
    forall v, d: nat, now: int | WorldAfter(v, st, server, d) && v.result == Waiting
      ensures WorldAfter(Next(v, WRITE_LIMIT, Deliver(now, true)), st, server, d + 1)
    {
      WriteDelivery(v, st, server, d, Deliver(now, true));
    }
    forall v, d: nat | WorldAfter(v, st, server, d) && v.result == Waiting
      ensures v.st.node == st.node
    {
      SameNode(v, st, server, d);
    }
  }

  lemma WriteSettles(st: IndexState, server: SdoServer)
    ensures Settles((v: World, d: nat) => WorldAfter(v, st, server, d))
    ensures OneWaits((v: World, d: nat) => WorldAfter(v, st, server, d))
  {
    forall v, d: nat | WorldAfter(v, st, server, d) && v.result != Waiting
      ensures WorldAfter(v, st, server, d + 1)
    {
    }
  }

  lemma WritePlays(st: IndexState, server: SdoServer, w: World, moves: seq<Move>)
    requires Writable(st) && WorldAfter(w, st, server, 0) && Benign(w, WRITE_LIMIT, moves)
    ensures WorldAfter(Play(w, WRITE_LIMIT, moves), st, server, Deliveries(moves))
  {
    WriteAdvancing(st, server);
    WriteSettles(st, server);
    var holds := (v: World, d: nat) => WorldAfter(v, st, server, d);
    BenignPlay(WRITE_LIMIT, holds, st.node, w, 0, moves);
    assert holds(Play(w, WRITE_LIMIT, moves), Deliveries(moves));
  }

  /** The server's dictionary when the client has heard `d` replies. */
  function DictionaryAfter(server: SdoServer, st: IndexState, d: nat): map<Key, Entry> {
    var s := Chars(st.value);
    if Ends(server.counts, s) && d >= Quota(server.counts, s) then Written(server, st) else server.dictionary
  }

  lemma DictionaryIs(w: World, st: IndexState, server: SdoServer, d: nat)
    requires WorldAfter(w, st, server, d)
    ensures w.server.dictionary == DictionaryAfter(server, st, d)
    ensures var s := Chars(st.value);
            w.result == if d > Pieces(|s|) && Fits(server.counts, s) then Completed else Waiting
  {
  }

  /**
   * A string write is one assignment.  Take any index object holding a string, any server in any
   * state, any late frames and any schedule in which the other frames are noise and no tick exceeds
   * the limit.  The call completes exactly when the string fits and all its ceil(n/7) + 1 replies are
   * delivered; otherwise it still waits.  The dictionary changes in the one entry, which becomes what
   * the server accepts, exactly when its quota of segments has been acknowledged and it learns of the
   * end; the string is stored as it is exactly when it fits.
   */
  lemma StringWrite(st: IndexState, server: SdoServer, x: Session)
    requires Writable(st) && Undisturbed(st, WriteRequest(st), WRITE_LIMIT, server, x)
    ensures var v := Outcome(st, WriteRequest(st), WRITE_LIMIT, server, x);
            var s := Chars(st.value);
            && v.result in {Completed, Waiting}
            && (v.result == Completed <==> Fits(server.counts, s) && Own(x) > Pieces(|s|))
            && v.server.dictionary ==
               if Ends(server.counts, s) && Own(x) >= Quota(server.counts, s)
               then server.dictionary[KeyOf(st) := Characters(Accepted(server.counts, s))]
               else server.dictionary
    ensures Fits(server.counts, Chars(st.value)) <==> Accepted(server.counts, Chars(st.value)) == Chars(st.value)
  {
    var w := Opened(st, WriteRequest(st), server, x.start, []);
    var moves := Relabelled(x.late, x.moves);
    WithoutLate(st, WriteRequest(st), WRITE_LIMIT, server, x);
    WriteOpens(st, server, x.start);
    WritePlays(st, server, w, moves);
    DictionaryIs(Play(w, WRITE_LIMIT, moves), st, server, Own(x));
    FitsExactly(server.counts, Chars(st.value));
  }

  /**
   * Once a server that counts has its segments, its entry is the string exactly if the string fits: for
   * ASCII, exactly up to 4095 bytes.  Of a longer one it has stored a part, and the call never
   * completes.
   */
  lemma StoredWhole(st: IndexState, server: SdoServer, x: Session)
    requires Writable(st) && Undisturbed(st, WriteRequest(st), WRITE_LIMIT, server, x)
    requires server.counts && Own(x) >= Quota(true, Chars(st.value))
    ensures var v := Outcome(st, WriteRequest(st), WRITE_LIMIT, server, x);
            var s := Chars(st.value);
            && KeyOf(st) in v.server.dictionary
            && (v.server.dictionary[KeyOf(st)] == Characters(s) <==> Fits(true, s))
            && (Ascii(s) ==> (Fits(true, s) <==> |s| <= 4095))
            && (!Fits(true, s) ==> v.result == Waiting && v.server.dictionary[KeyOf(st)].bytes < s)
  {
    StringWrite(st, server, x);
    FitsExactly(true, Chars(st.value));
  }

  /**
   * A server that waits for the last bit never learns of the end of a string whose length is a
   * multiple of seven: the call completes and nothing was stored.
   */
  lemma StoredExactly(st: IndexState, server: SdoServer, x: Session)
    requires Writable(st) && Undisturbed(st, WriteRequest(st), WRITE_LIMIT, server, x) && !server.counts
    ensures var v := Outcome(st, WriteRequest(st), WRITE_LIMIT, server, x);
            var s := Chars(st.value);
            v.result == Completed ==>
              v.server.dictionary ==
              if |s| % 7 != 0 || s == [] then server.dictionary[KeyOf(st) := Characters(s)] else server.dictionary
  {
    StringWrite(st, server, x);
  }

  lemma WriteStands(st: IndexState, server: SdoServer, x: Session) returns (c: World, h: nat)
    requires Writable(st) && Bystanders(x.late, x.moves, st.node)
    ensures var w := OpenedBy(st, WriteRequest(st), server, x);
            && h == OwnHeard(w, WRITE_LIMIT, |x.late|, x.moves) && WorldAfter(c, st, server, h)
            && StandsFor(c, WRITE_LIMIT, w, x.moves)
  {
    var w := Opened(st, WriteRequest(st), server, x.start, []);
    LateInFront(st, WriteRequest(st), server, x);
    WriteOpens(st, server, x.start);
    WriteAdvancing(st, server);
    WriteSettles(st, server);
    var holds := (v: World, d: nat) => WorldAfter(v, st, server, d);
    c, h := CutShort(WRITE_LIMIT, holds, st.node, w, x.late, 0, x.moves);
  }

  /**
   * Atomicity, whether the string fits or not: node resets, heartbeats, time-outs and a bus that
   * refuses a segment may cut the write short at any point.  The dictionary is the old one, or it has
   * the whole new entry: exactly when the client heard as many replies as the server takes segments,
   * before an answer was refused.  So a call can fail on either side of the assignment; and it
   * succeeds without it exactly if a boot-up or heartbeat frame or such a refusal cut it.
   */
  lemma WriteIsAtomic(st: IndexState, server: SdoServer, x: Session)
    requires Writable(st) && Bystanders(x.late, x.moves, st.node)
    ensures var v := Outcome(st, WriteRequest(st), WRITE_LIMIT, server, x);
            var s := Chars(st.value);
            var w := OpenedBy(st, WriteRequest(st), server, x);
            var heard := OwnHeard(w, WRITE_LIMIT, |x.late|, x.moves);
            && v.server.dictionary ==
               (if x.requestOk && Ends(server.counts, s) && heard >= Quota(server.counts, s)
                then server.dictionary[KeyOf(st) := Characters(Accepted(server.counts, s))]
                else server.dictionary)
            && (if !x.requestOk then v.result == Failed
                else if heard > Pieces(|s|) && Fits(server.counts, s) then v.result == Completed
                else CutBy(EndedBy(w, WRITE_LIMIT, x.moves), v.result))
  {
    if x.requestOk {
      var c, h := WriteStands(st, server, x);
      DictionaryIs(c, st, server, h);
    }
  }

  /** In every phase with something left to send the reply draws a segment. */
  lemma PhaseDraws(w: World, st: IndexState, server: SdoServer, j: nat)
    requires Writable(st) && Phase(w, st, server, j) && 7 * j < |Chars(st.value)|
    ensures Draws(w.st, w.inbox[0]) && RouteOf(w.inbox[0].data[0], w.st.dataType) == Segmented(Done)
  {
    ClientInPhase(w, st, server, j, 0);
    PassKeeps(w.st, w.timer, WRITE_LIMIT, Received(w.inbox[0], true, 0));
    ProcessKeeps(w.st, w.inbox[0], true);
  }

  /**
   * A refused segment: after any benign schedule with `d` replies, of which the last leaves something
   * to send, the bus refuses the segment that the next reply draws.  The call reports success at once,
   * and the server stands as after `d` segments.
   */
  lemma SegmentRefused(st: IndexState, server: SdoServer, start: int, before: seq<Move>, now: int, after: seq<Move>)
    requires Writable(st) && Benign(Opened(st, WriteRequest(st), server, start, []), WRITE_LIMIT, before)
    requires var d := Deliveries(before);
             d <= Quota(server.counts, Chars(st.value)) && 7 * d < |Chars(st.value)|
    ensures var x := Session(true, start, [], before + ([Deliver(now, false)] + after));
            var v := Outcome(st, WriteRequest(st), WRITE_LIMIT, server, x);
            v.result == Completed && v.server == ServerAt(server, st, Deliveries(before))
  {
    var w := Opened(st, WriteRequest(st), server, start, []);
    WriteOpens(st, server, start);
    WritePlays(st, server, w, before);
    PhaseDraws(Play(w, WRITE_LIMIT, before), st, server, Deliveries(before));
    PlayRefused(w, WRITE_LIMIT, before, now, after);
  }
}
