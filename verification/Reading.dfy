/** A string read through the loop, against a server, fetches one dictionary entry. */
module Reading {
  import opened Bytes
  import opened Wrappers
  import opened Text
  import opened Values
  import opened Segmentation
  import opened Client
  import opened Traces
  import opened Discipline
  import opened Server
  import opened Transfers
  import opened Writing
  import Address

  /** The part of the announced length the client looks at. */
  const LENGTH_LIMIT := 0x1_0000

  /** After `i` segments of the server's text the client asks for another one. */
  predicate Continues(s: seq<byte>, i: nat) {
    7 * i < |s| && |Utf8(s[..7 * i])| < |s| % LENGTH_LIMIT
  }

  function ReadsFrom(s: seq<byte>, i: nat): (r: nat)
    requires 7 * i < |s| + 7
    ensures i <= r && 7 * r < |s| + 7 && !Continues(s, r)
    ensures forall k :: i <= k < r ==> Continues(s, k)
    decreases |s| + 7 - 7 * i
  {
    if Continues(s, i) then ReadsFrom(s, i + 1) else i
  }

  /** The number of segments the client reads of the server's text `s`. */
  function Reads(s: seq<byte>): (r: nat)
    ensures 7 * r < |s| + 7 && !Continues(s, r)
    ensures forall k :: 0 <= k < r ==> Continues(s, k)
  {
    ReadsFrom(s, 0)
  }

  /** The bytes it reads. */
  function Taken(s: seq<byte>): seq<byte> {
    s[..Min(7 * Reads(s), |s|)]
  }

  /** ASCII text below 65536 bytes is read whole, in exactly ceil(n/7) segments. */
  lemma ReadsWhole(s: seq<byte>)
    requires Ascii(s) && |s| < LENGTH_LIMIT
    ensures Reads(s) == Pieces(|s|) && Taken(s) == s
  {
    Utf8Prefix(s, Reads(s));
    assert !Continues(s, Reads(s));
  }

  lemma Utf8Prefix(s: seq<byte>, i: nat)
    requires Ascii(s)
    ensures 7 * i <= |s| ==> |Utf8(s[..7 * i])| == 7 * i
  {
    if 7 * i <= |s| {
      Utf8Ascii(s[..7 * i]);
    }
  }

  /** Below 65536 bytes the value read is the server's text exactly when that is plain. */
  lemma ReadExactlyPlain(s: seq<byte>)
    requires |s| < LENGTH_LIMIT
    ensures Stored(Taken(s)) == s <==> Plain(s)
  {
    if Ascii(s) {
      ReadsWhole(s);
      StoredIsIdentity(s);
    }
  }

  /** What is taken of ASCII text is longer than the length the client sees by less than a segment. */
  lemma TakenIsShort(s: seq<byte>)
    requires Ascii(s) && Taken(s) == s
    ensures |s| < LENGTH_LIMIT
  {
    var r := Reads(s);
    if r > 0 {
      assert Continues(s, r - 1);
      Utf8Prefix(s, r - 1);
    }
  }

  /** Text is read whole and comes back as it is exactly when it is plain and below 65536 bytes. */
  lemma ReadExactly(s: seq<byte>)
    ensures Taken(s) == s && Stored(Taken(s)) == s <==> Plain(s) && |s| < LENGTH_LIMIT
  {
    StoredIsIdentity(s);
    if Plain(s) && Taken(s) == s {
      TakenIsShort(s);
    }
    if Plain(s) && |s| < LENGTH_LIMIT {
      ReadsWhole(s);
    }
  }

  function Repeated(c: byte, n: nat): (s: seq<byte>)
    ensures |s| == n && forall i :: 0 <= i < n ==> s[i] == c
  {
    seq(n, _ => c)
  }

  lemma {:induction false} EscapeDoubles(n: nat)
    ensures Escape(Repeated(0x5C, n)) == Repeated(0x5C, 2 * n)
  {
    if n > 0 {
      EscapeDoubles(n - 1);
      assert Repeated(0x5C, n)[1..] == Repeated(0x5C, n - 1);
      assert [0x5C as byte, 0x5C] + Repeated(0x5C, 2 * (n - 1)) == Repeated(0x5C, 2 * n);
    }
  }

  lemma ReadsOfAscii(s: seq<byte>, r: nat)
    requires Ascii(s) && 7 * r < |s| && r > 0 && 7 * (r - 1) < |s| % LENGTH_LIMIT <= 7 * r
    ensures Reads(s) == r && Taken(s) == s[..7 * r]
  {
    Utf8Prefix(s, r);
    Utf8Prefix(s, Reads(s));
    assert !Continues(s, r) && !Continues(s, Reads(s));
  }

  /**
   * A text that is cut and comes back whole: eleven letters and 131060 backslashes.  The client takes
   * 65541 bytes of it, and escaping doubles the backslashes among them.
   */
  lemma CutAndYetEqual()
    ensures var s := Repeated(0x61, 11) + Repeated(0x5C, 131060);
            Stored(Taken(s)) == s && Taken(s) != s && !Plain(s)
  {
    var s := Repeated(0x61, 11) + Repeated(0x5C, 131060);
    ReadsOfAscii(s, 9363);
    var t := Repeated(0x61, 11) + Repeated(0x5C, 65530);
    assert s[..65541] == t;
    Utf8Ascii(t);
    CStringWhole(t);
    EscapeAfterPlain(Repeated(0x61, 11), Repeated(0x5C, 65530));
    EscapeDoubles(65530);
    assert s[11] == 0x5C;
  }

  /** Plain text comes back as it is exactly when its length fits the two bytes the client looks at. */
  lemma ReadExactlyShort(s: seq<byte>)
    requires Plain(s)
    ensures Stored(Taken(s)) == s <==> |s| < LENGTH_LIMIT
  {
    StoredIsIdentity(Taken(s));
    ReadExactly(s);
  }

  /** An index object of string type whose entry the server has. */
  predicate Readable(st: IndexState, server: SdoServer, s: seq<byte>) {
    && Writable(st)
    && KeyOf(st) in server.dictionary && server.dictionary[KeyOf(st)] == Characters(s)
  }

  /** The world after `j` deliveries: the client has the first `j - 1` segments, the next is waiting. */
  predicate Phase(w: World, st: IndexState, server: SdoServer, s: seq<byte>, j: nat) {
    && j <= Reads(s) && w.result == Waiting
    && SameEntry(w.st, st) && w.st.value == st.value && ValidState(w.st)
    && w.server.dictionary == server.dictionary
    && |w.inbox| == 1 && w.inbox[0].id == ReplyId(st.node)
    && (if j == 0 then
          && w.inbox[0].data[0] == 0x41 && w.inbox[0].data[4..] == Word4(|s|)
          && w.server.transfer == Uploading(s, 0)
        else
          && 7 * (j - 1) < |s|
          && w.st.text == Some(Utf8(s[..7 * (j - 1)])) && w.st.toggle == Flipped(UPLOAD, j)
          && w.st.len == |s| % LENGTH_LIMIT
          && w.inbox[0].data == UploadReply(s[7 * (j - 1)..], (j - 1) % 2)
          && (7 * j < |s| ==> w.server.transfer == Uploading(s[7 * j..], j % 2)))
  }

  lemma ReadOpens(st: IndexState, server: SdoServer, s: seq<byte>, start: int)
    requires Readable(st, server, s)
    ensures Phase(Opened(st, ReadRequest(st), server, start, []), st, server, s, 0)
  {
    KeyOfRequest(st, 0x40, 0);
    OneExchange(World(Waiting, st, start, server, []), ReadRequest(st));
    assert ([0x41 as byte] + ReadRequest(st).data[1..4] + Word4(|s|))[4..] == Word4(|s|);
  }

  /** The first request for a segment, or the empty text at once. */
  lemma ClientBegins(w: World, st: IndexState, server: SdoServer, s: seq<byte>, now: int)
    requires Readable(st, server, s) && Phase(w, st, server, s, 0)
    ensures var p := OnePass(w.st, w.timer, READ_LIMIT, Received(w.inbox[0], true, now));
            && SameEntry(p.st, st) && ValidState(p.st)
            && if Reads(s) == 0 then
                 p.result == Completed && p.sent == [] && p.st.value == StrV(Some([]))
               else
                 && p.result == Waiting && p.st.value == st.value && p.st.text == Some([])
                 && p.st.len == |s| % LENGTH_LIMIT && p.st.toggle == Flipped(UPLOAD, 1)
                 && p.sent == [CanFrame(RequestId(st.node), [UPLOAD as byte] + Zeros(7))]
  {
    var data := w.inbox[0].data;
    Address.PackingKeeps(|s|, 0);
    assert data[4] == data[4..][0] && data[5] == data[4..][1];
    assert s[..0] == [];
    assert Continues(s, 0) <==> |s| % LENGTH_LIMIT >= 1;
    ToggleStepValid(w.st, data);
  }

  lemma CarriedOfReply(rest: seq<byte>, toggle: nat)
    requires toggle < 2
    ensures Carried(UploadReply(rest, toggle)) == rest[..Chunk(rest)]
    ensures LastBit(UploadReply(rest, toggle)) <==> |rest| <= 7
    ensures UploadReply(rest, toggle)[0] < 0x20
  {
    var f := UploadReply(rest, toggle);
    assert f[0] == 16 * toggle + 2 * (7 - Chunk(rest)) + (if |rest| <= 7 then 1 else 0);
    assert f[0] / 2 % 8 == 7 - Chunk(rest);
    assert f[1..8 - (7 - Chunk(rest))] == rest[..Chunk(rest)];
  }

  /** Segment `j` of the server's text, and what the client has once it is appended. */
  lemma Collects(s: seq<byte>, j: nat)
    requires j > 0 && 7 * (j - 1) < |s|
    ensures var data := UploadReply(s[7 * (j - 1)..], (j - 1) % 2);
            && data[0] < 0x20
            && Utf8(s[..7 * (j - 1)]) + Utf8(Carried(data)) == Utf8(s[..Min(7 * j, |s|)])
            && (|Carried(data)| < 7 || LastBit(data) <==> 7 * j >= |s|)
  {
    CarriedOfReply(s[7 * (j - 1)..], (j - 1) % 2);
    Utf8Extends(s, 7 * (j - 1), Min(7 * j, |s|));
    assert s[7 * (j - 1)..][..Chunk(s[7 * (j - 1)..])] == s[7 * (j - 1)..Min(7 * j, |s|)];
  }

  lemma Utf8Extends(s: seq<byte>, a: nat, b: nat)
    requires a <= b <= |s|
    ensures Utf8(s[..a]) + Utf8(s[a..b]) == Utf8(s[..b])
  {
    Utf8Append(s[..a], s[a..b]);
    assert s[..a] + s[a..b] == s[..b];
  }

  /** What the client makes of segment `j`. */
  function SegmentStep(c: IndexState, s: seq<byte>, j: nat): (r: Step)
    requires 0 < j <= Reads(s)
    ensures r.Send? ==> |r.data| == 8
  {
    if j < Reads(s) then
      assert Continues(s, j);
      Send(c.(text := Some(Utf8(s[..7 * j])), toggle := Flipped(UPLOAD, j + 1)),
           [Flipped(UPLOAD, j) as byte] + Zeros(7))
    else
      Stop(c.(text := Some(Utf8(Taken(s))), value := StrV(Some(Stored(Taken(s))))))
  }

  /** Segment `j` is not the last one the client wants. */
  lemma SegmentGoesOn(c: IndexState, s: seq<byte>, j: nat, data: seq<byte>, text: seq<byte>)
    requires 0 < j < Reads(s) && c.text.Some? && |data| == 8 && data[0] < 0x20
    requires c.len == |s| % LENGTH_LIMIT && c.toggle == Flipped(UPLOAD, j)
    requires c.text.value + Utf8(Carried(data)) == text == Utf8(s[..Min(7 * j, |s|)])
    requires |Carried(data)| < 7 || LastBit(data) <==> 7 * j >= |s|
    ensures TakeSegment(c, data) == SegmentStep(c, s, j)
  {
    assert Continues(s, j);
    FlipFlip(UPLOAD, j);
  }

  /** It is, since nothing follows or the length seen is reached. */
  lemma SegmentStops(c: IndexState, s: seq<byte>, data: seq<byte>, text: seq<byte>)
    requires 0 < Reads(s) && c.text.Some? && |data| == 8 && data[0] < 0x20 && c.len == |s| % LENGTH_LIMIT
    requires c.text.value + Utf8(Carried(data)) == text == Utf8(Taken(s))
    requires |Carried(data)| < 7 || LastBit(data) <==> 7 * Reads(s) >= |s|
    ensures TakeSegment(c, data) == SegmentStep(c, s, Reads(s))
  {
    assert !Continues(s, Reads(s));
  }

  lemma SegmentTaken(c: IndexState, s: seq<byte>, j: nat)
    requires 0 < j <= Reads(s) && 7 * (j - 1) < |s|
    requires c.text == Some(Utf8(s[..7 * (j - 1)])) && c.len == |s| % LENGTH_LIMIT && c.toggle == Flipped(UPLOAD, j)
    ensures var data := UploadReply(s[7 * (j - 1)..], (j - 1) % 2);
            TakeSegment(c, data) == SegmentStep(c, s, j)
  {
    Collects(s, j);
    var data := UploadReply(s[7 * (j - 1)..], (j - 1) % 2);
    var text := Utf8(s[..Min(7 * j, |s|)]);
    if j < Reads(s) {
      SegmentGoesOn(c, s, j, data, text);
    } else {
      SegmentStops(c, s, data, text);
    }
  }

  /** The client takes segment `j`: it asks for the next one, or stores what it has. */
  lemma ClientTakesSegment(c: IndexState, timer: int, f: Frame, s: seq<byte>, j: nat, now: int)
    requires 0 < j <= Reads(s) && 7 * (j - 1) < |s| && c.value.StrV?
    requires c.text == Some(Utf8(s[..7 * (j - 1)])) && c.len == |s| % LENGTH_LIMIT && c.toggle == Flipped(UPLOAD, j)
    requires 0x580 < f.id < 0x700 && NodeOf(f) == c.node && f.data == UploadReply(s[7 * (j - 1)..], (j - 1) % 2)
    ensures OnePass(c, timer, READ_LIMIT, Received(f, true, now)) ==
            PassOf(SegmentStep(c, s, j), c.node, timer, now)
  {
    SegmentTaken(c, s, j);
    CarriedOfReply(s[7 * (j - 1)..], (j - 1) % 2);
    UploadPass(c, timer, READ_LIMIT, f, now, SegmentStep(c, s, j));
  }

  lemma UploadPass(c: IndexState, timer: int, limit: nat, f: Frame, now: int, r: Step)
    requires 0x580 < f.id < 0x700 && NodeOf(f) == c.node && f.data[0] < 0x20 && c.value.StrV?
    requires TakeSegment(c, f.data) == r && !r.Crash?
    ensures OnePass(c, timer, limit, Received(f, true, now)) == PassOf(r, c.node, timer, now)
  {
    TransferPass(c, timer, limit, f, now);
  }

  lemma ReadAdvances(w: World, st: IndexState, server: SdoServer, s: seq<byte>, j: nat, m: Move)
    requires Readable(st, server, s) && Phase(w, st, server, s, j) && j < Reads(s) && m.Deliver? && m.taken
    ensures Phase(Next(w, READ_LIMIT, m), st, server, s, j + 1)
  {
    if j == 0 {
      ClientBegins(w, st, server, s, m.now);
      assert s[0..] == s && s[..0] == [];
    } else {
      ClientTakesSegment(w.st, w.timer, w.inbox[0], s, j, m.now);
      FlipFlip(UPLOAD, j);
    }
    assert Continues(s, j);
    DeliverMove(w, READ_LIMIT, m);
    var p := OnePass(w.st, w.timer, READ_LIMIT, Received(w.inbox[0], true, m.now));
    ServerSendsSegment(s, w.server, j);
    OneExchange(World(p.result, p.st, p.timer, w.server, []), p.sent[0]);
    assert p.sent == [p.sent[0]];
  }

  lemma AskBits(j: nat)
    ensures var c := Flipped(UPLOAD, j); c < 256 && c / 32 == 3 && c / 16 % 2 == j % 2
  {
  }

  lemma ServerSendsSegment(s: seq<byte>, server: SdoServer, j: nat)
    requires 7 * j < |s| && server.transfer == Uploading(s[7 * j..], j % 2)
    ensures var r := Serve(server, [Flipped(UPLOAD, j) as byte] + Zeros(7));
            && r.reply == Some(UploadReply(s[7 * j..], j % 2))
            && r.server.dictionary == server.dictionary
            && (7 * (j + 1) < |s| ==> r.server.transfer == Uploading(s[7 * (j + 1)..], (j + 1) % 2))
  {
    AskBits(j);
    var data := [Flipped(UPLOAD, j) as byte] + Zeros(7);
    assert Serve(server, data) == UploadSegment(server, data);
    assert 7 * (j + 1) < |s| ==> s[7 * j..][7..] == s[7 * (j + 1)..];
  }

  /** The last segment wanted, or the initiate response of an empty text, ends the call. */
  lemma LastPass(w: World, st: IndexState, server: SdoServer, s: seq<byte>, now: int)
    requires Readable(st, server, s) && Phase(w, st, server, s, Reads(s))
    ensures var p := OnePass(w.st, w.timer, READ_LIMIT, Received(w.inbox[0], true, now));
            && p.result == Completed && p.sent == [] && SameEntry(p.st, st)
            && p.st.value == StrV(Some(Stored(Taken(s))))
  {
    if Reads(s) == 0 {
      ClientBegins(w, st, server, s, now);
      assert Taken(s) == [];
    } else {
      ClientTakesSegment(w.st, w.timer, w.inbox[0], s, Reads(s), now);
    }
  }

  predicate Finished(w: World, st: IndexState, server: SdoServer, s: seq<byte>) {
    && w.result == Completed && SameEntry(w.st, st) && w.st.value == StrV(Some(Stored(Taken(s))))
    && w.server.dictionary == server.dictionary
  }

  lemma ReadEnds(w: World, st: IndexState, server: SdoServer, s: seq<byte>, m: Move)
    requires Readable(st, server, s) && Phase(w, st, server, s, Reads(s)) && m.Deliver? && m.taken
    ensures Finished(Next(w, READ_LIMIT, m), st, server, s)
  {
    LastPass(w, st, server, s, m.now);
    DeliverMove(w, READ_LIMIT, m);
  }

  /** The world after `d` deliveries. */
  predicate WorldAfter(w: World, st: IndexState, server: SdoServer, s: seq<byte>, d: nat) {
    if d <= Reads(s) then Phase(w, st, server, s, d) else Finished(w, st, server, s)
  }

  lemma ReadDelivery(w: World, st: IndexState, server: SdoServer, s: seq<byte>, d: nat, m: Move)
    requires Readable(st, server, s) && WorldAfter(w, st, server, s, d) && w.result == Waiting && m.Deliver? && m.taken
    ensures WorldAfter(Next(w, READ_LIMIT, m), st, server, s, d + 1)
  {
    if d < Reads(s) {
      ReadAdvances(w, st, server, s, d, m);
    } else {
      ReadEnds(w, st, server, s, m);
    }
  }

  lemma SameNode(w: World, st: IndexState, server: SdoServer, s: seq<byte>, d: nat)
    requires WorldAfter(w, st, server, s, d)
    ensures w.st.node == st.node && w.result in {Waiting, Completed}
    ensures w.result == Completed ==> WorldAfter(w, st, server, s, d + 1)
  {
  }

  lemma ReadAfter(w: World, st: IndexState, server: SdoServer, s: seq<byte>, d: nat)
    requires WorldAfter(w, st, server, s, d)
    ensures w.result == if d > Reads(s) then Completed else Waiting
    ensures w.st.value == if d > Reads(s) then StrV(Some(Stored(Taken(s)))) else st.value
    ensures w.server.dictionary == server.dictionary
  {
  }

  lemma ReadHeard(v: World, st: IndexState, server: SdoServer, s: seq<byte>, d: nat, now: int)
    requires Readable(st, server, s) && WorldAfter(v, st, server, s, d) && v.result == Waiting
    ensures WorldAfter(Next(v, READ_LIMIT, Deliver(now, true)), st, server, s, d + 1) && v.st.node == st.node
  {
    SameNode(v, st, server, s, d);
    ReadDelivery(v, st, server, s, d, Deliver(now, true));
  }

  lemma ReadAdvancing(st: IndexState, server: SdoServer, s: seq<byte>)
    requires Readable(st, server, s)
    ensures Advances(READ_LIMIT, (v: World, d: nat) => WorldAfter(v, st, server, s, d), st.node)
  {
    forall v, d: nat, now: int | WorldAfter(v, st, server, s, d) && v.result == Waiting
      ensures WorldAfter(Next(v, READ_LIMIT, Deliver(now, true)), st, server, s, d + 1)
    {
      ReadHeard(v, st, server, s, d, now);
    }
    forall v, d: nat | WorldAfter(v, st, server, s, d) && v.result == Waiting
      ensures v.st.node == st.node
    {
      ReadHeard(v, st, server, s, d, 0);
    }
  }

  lemma ReadSettles(st: IndexState, server: SdoServer, s: seq<byte>)
    ensures Settles((v: World, d: nat) => WorldAfter(v, st, server, s, d))
    ensures OneWaits((v: World, d: nat) => WorldAfter(v, st, server, s, d))
  {
    forall v, d: nat | WorldAfter(v, st, server, s, d) && v.result != Waiting
      ensures WorldAfter(v, st, server, s, d + 1)
    {
      SameNode(v, st, server, s, d);
    }
  }

  /** While segments are wanted, each reply draws a request; the first one is an initiate response. */
  lemma PhaseDraws(w: World, st: IndexState, server: SdoServer, s: seq<byte>, j: nat)
    requires Readable(st, server, s) && Phase(w, st, server, s, j) && j < Reads(s)
    ensures Draws(w.st, w.inbox[0])
    ensures RouteOf(w.inbox[0].data[0], w.st.dataType) == Segmented(if j == 0 then Busy else Done)
  {
    if j == 0 {
      ClientBegins(w, st, server, s, 0);
    } else {
      ClientTakesSegment(w.st, w.timer, w.inbox[0], s, j, 0);
      CarriedOfReply(s[7 * (j - 1)..], (j - 1) % 2);
    }
    ProcessKeeps(w.st, w.inbox[0], true);
  }

  /** How a read stands after `d` replies. */
  predicate ReadStandsAt(w: World, st: IndexState, server: SdoServer, s: seq<byte>, d: nat) {
    && w.result == (if d > Reads(s) then Completed else Waiting)
    && w.st.value == (if d > Reads(s) then StrV(Some(Stored(Taken(s)))) else st.value)
    && w.server.dictionary == server.dictionary
    && (d < Reads(s) ==>
          && w.inbox != [] && Draws(w.st, w.inbox[0])
          && RouteOf(w.inbox[0].data[0], w.st.dataType) == Segmented(if d == 0 then Busy else Done))
  }

  lemma StandsAfter(w: World, st: IndexState, server: SdoServer, s: seq<byte>, d: nat)
    requires Readable(st, server, s) && WorldAfter(w, st, server, s, d)
    ensures ReadStandsAt(w, st, server, s, d)
  {
    ReadAfter(w, st, server, s, d);
    if d < Reads(s) {
      PhaseDraws(w, st, server, s, d);
    }
  }

  lemma ReadPlays(st: IndexState, server: SdoServer, s: seq<byte>, w: World, moves: seq<Move>)
    requires Readable(st, server, s) && WorldAfter(w, st, server, s, 0) && Benign(w, READ_LIMIT, moves)
    ensures ReadStandsAt(Play(w, READ_LIMIT, moves), st, server, s, Deliveries(moves))
  {
    ReadAdvancing(st, server, s);
    ReadSettles(st, server, s);
    forall v, d: nat | WorldAfter(v, st, server, s, d)
      ensures ReadStandsAt(v, st, server, s, d)
    {
      StandsAfter(v, st, server, s, d);
    }
    var holds := (v: World, d: nat) => WorldAfter(v, st, server, s, d);
    BenignPlay(READ_LIMIT, holds, st.node, w, 0, moves);
  }

  /**
   * A string read is one fetch.  Take any index object of string type, any server that has its
   * entry, in any state, any late frames and any schedule in which the other frames are noise and no
   * tick exceeds the limit.  The call completes exactly when the initiate reply and all the segments
   * the client wants are delivered; then its value is what is stored for the bytes it took, and until
   * then the value is the old one.  The dictionary never changes.
   */
  lemma StringRead(st: IndexState, server: SdoServer, s: seq<byte>, x: Session)
    requires Readable(st, server, s) && Undisturbed(st, ReadRequest(st), READ_LIMIT, server, x)
    ensures var v := Outcome(st, ReadRequest(st), READ_LIMIT, server, x);
            && v.result == (if Own(x) > Reads(s) then Completed else Waiting)
            && v.st.value == (if Own(x) > Reads(s) then StrV(Some(Stored(Taken(s)))) else st.value)
            && v.server.dictionary == server.dictionary
  {
    var w := Opened(st, ReadRequest(st), server, x.start, []);
    var moves := Relabelled(x.late, x.moves);
    WithoutLate(st, ReadRequest(st), READ_LIMIT, server, x);
    ReadOpens(st, server, s, x.start);
    ReadPlays(st, server, s, w, moves);
  }

  lemma ReadStands(st: IndexState, server: SdoServer, s: seq<byte>, x: Session) returns (c: World, h: nat)
    requires Readable(st, server, s) && Bystanders(x.late, x.moves, st.node)
    ensures var w := OpenedBy(st, ReadRequest(st), server, x);
            && h == OwnHeard(w, READ_LIMIT, |x.late|, x.moves) && WorldAfter(c, st, server, s, h)
            && StandsFor(c, READ_LIMIT, w, x.moves)
  {
    var w := Opened(st, ReadRequest(st), server, x.start, []);
    LateInFront(st, ReadRequest(st), server, x);
    ReadOpens(st, server, s, x.start);
    ReadAdvancing(st, server, s);
    ReadSettles(st, server, s);
    var holds := (v: World, d: nat) => WorldAfter(v, st, server, s, d);
    c, h := CutShort(READ_LIMIT, holds, st.node, w, x.late, 0, x.moves);
  }

  /**
   * Atomicity of a read: node resets, heartbeats, time-outs and a bus that refuses a request for a
   * segment may cut it short at any point.  The value is the old one, or the whole new one: exactly
   * when the client heard all the replies it wants, before an answer was refused.  A call that was cut
   * short keeps the old value; it succeeds with it exactly if a boot-up or heartbeat frame or such a
   * refusal cut it.
   */
  lemma ReadIsAtomic(st: IndexState, server: SdoServer, s: seq<byte>, x: Session)
    requires Readable(st, server, s) && Bystanders(x.late, x.moves, st.node)
    ensures var v := Outcome(st, ReadRequest(st), READ_LIMIT, server, x);
            var w := OpenedBy(st, ReadRequest(st), server, x);
            var whole := x.requestOk && OwnHeard(w, READ_LIMIT, |x.late|, x.moves) > Reads(s);
            && v.st.value == (if whole then StrV(Some(Stored(Taken(s)))) else st.value)
            && (if whole then v.result == Completed
                else if x.requestOk then CutBy(EndedBy(w, READ_LIMIT, x.moves), v.result)
                else v.result == Failed)
            && v.server.dictionary == server.dictionary
  {
    if x.requestOk {
      var c, h := ReadStands(st, server, s, x);
      ReadAfter(c, st, server, s, h);
    }
  }

  /**
   * A refused request: after any benign schedule with `d` replies, fewer than it wants, the bus refuses
   * the request that the next reply draws.  The value stays the old one.  If that reply was the initiate
   * response, the call goes on waiting; else it reports success at once.
   */
  lemma RequestRefused(st: IndexState, server: SdoServer, s: seq<byte>, start: int, before: seq<Move>, now: int,
                       after: seq<Move>)
    requires Readable(st, server, s) && Benign(Opened(st, ReadRequest(st), server, start, []), READ_LIMIT, before)
    requires Deliveries(before) < Reads(s)
    ensures var x := Session(true, start, [], before + ([Deliver(now, false)] + after));
            var v := Outcome(st, ReadRequest(st), READ_LIMIT, server, x);
            if Deliveries(before) > 0 then v.result == Completed && v.st.value == st.value
            else after == [] ==> v.result == Waiting && v.st.value == st.value
  {
    var w := Opened(st, ReadRequest(st), server, start, []);
    ReadOpens(st, server, s, start);
    ReadPlays(st, server, s, w, before);
    PlayRefused(w, READ_LIMIT, before, now, after);
  }

  /**
   * End to end: after a completed write of a plain string of at most 4095 bytes to a server that
   * learns of its end, a completed read of the same entry, by any index object of string type, gives
   * that string.
   */
  lemma WriteThenRead(writer: IndexState, reader: IndexState, server: SdoServer, writing: Session, reading: Session)
    requires Writable(writer) && Writable(reader) && KeyOf(reader) == KeyOf(writer)
    requires Plain(Chars(writer.value)) && |Chars(writer.value)| <= 4095
    requires Ends(server.counts, Chars(writer.value))
    requires Undisturbed(writer, WriteRequest(writer), WRITE_LIMIT, server, writing)
    requires var v := Outcome(writer, WriteRequest(writer), WRITE_LIMIT, server, writing);
             Undisturbed(reader, ReadRequest(reader), READ_LIMIT, v.server, reading)
    requires Own(writing) > Pieces(|Chars(writer.value)|) && Own(reading) > Pieces(|Chars(writer.value)|)
    ensures var v := Outcome(writer, WriteRequest(writer), WRITE_LIMIT, server, writing);
            var r := Outcome(reader, ReadRequest(reader), READ_LIMIT, v.server, reading);
            r.result == Completed && r.st.value == StrV(Some(Chars(writer.value)))
  {
    var s := Chars(writer.value);
    FitsExactly(server.counts, s);
    StringWrite(writer, server, writing);
    var v := Outcome(writer, WriteRequest(writer), WRITE_LIMIT, server, writing);
    StringRead(reader, v.server, s, reading);
    ReadsWhole(s);
    ReadExactlyPlain(s);
  }
}
