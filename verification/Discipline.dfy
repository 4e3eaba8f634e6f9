/**
 * Segment traffic over every trace: toggle bits, the exact segments of a download, and how often
 * a transfer can restart its timer.
 */
module Discipline {
  import opened Bytes
  import opened Wrappers
  import opened Text
  import opened Values
  import opened Segmentation
  import opened Client
  import opened Traces

  /** A frame the server of `node` sent. */
  predicate IsReply(f: Frame, node: nat) {
    0x580 < f.id < 0x700 && NodeOf(f) == node && f.data[0] < 0x80
  }

  /** The server only answers with commands from `lo` to below `hi`; other traffic is arbitrary. */
  predicate Replies(events: seq<Event>, node: nat, lo: nat, hi: nat) {
    forall k :: 0 <= k < |events| && events[k].Received? && IsReply(events[k].frame, node)
                ==> lo <= events[k].frame.data[0] < hi
  }

  /** Segment responses of both directions: 0x00-0x1F for uploads, 0x20-0x3F for downloads. */
  predicate OnlySegments(events: seq<Event>, node: nat) {
    Replies(events, node, 0x00, 0x40)
  }

  predicate OnlyUploads(events: seq<Event>, node: nat) {
    Replies(events, node, 0x00, 0x20)
  }

  predicate OnlyDownloads(events: seq<Event>, node: nat) {
    Replies(events, node, 0x20, 0x40)
  }

  /** A waiting pass on segment traffic either changes nothing or answers one segment. */
  lemma SegmentPass(st: IndexState, timer: int, limit: nat, e: Event)
    requires ValidState(st)
    requires e.Received? && IsReply(e.frame, st.node) ==> e.frame.data[0] < 0x40
    requires OnePass(st, timer, limit, e).result == Waiting
    ensures var p := OnePass(st, timer, limit, e);
            || (p.sent == [] && p.st == st)
            || (&& e.Received? && IsReply(e.frame, st.node) && st.text.Some?
                && ToggleStep(st, e.frame.data).Send?
                && p.st == ToggleStep(st, e.frame.data).st
                && p.sent == [CanFrame(RequestId(st.node), ToggleStep(st, e.frame.data).data)])
  {
  }

  lemma FlipFlip(t: nat, n: nat)
    requires ToggleByte(t)
    ensures Flip(Flip(t)) == t && ToggleByte(Flip(t))
    ensures Flipped(Flip(t), n) == Flipped(t, n + 1)
  {
  }

  /** The unused-count and last bits never disturb the toggle bit or the command bits. */
  lemma HeaderBits(toggle: nat, s: seq<byte>)
    requires ToggleByte(toggle)
    ensures SegmentOf(toggle, s)[0] / 16 == toggle / 16
    ensures SegmentOf(toggle, s)[0] == toggle + 2 * (7 - Chunk(s)) + (if Chunk(s) < 7 then 1 else 0)
  {
  }

  /** The frames alternate bit 4, from that of `toggle` on, and have its command bits. */
  ghost predicate Alternate(sent: seq<Frame>, toggle: nat) {
    forall j :: 0 <= j < |sent| ==> sent[j].data[0] / 16 == Flipped(toggle, j) / 16
  }

  lemma AlternateNext(sent: seq<Frame>, toggle: nat, next: nat, rest: seq<Frame>)
    requires ToggleByte(toggle) && Alternate(rest, next)
    requires if sent == [] then next == toggle
             else |sent| == 1 && sent[0].data[0] / 16 == toggle / 16 && next == Flip(toggle)
    ensures Alternate(sent + rest, toggle)
  {
    forall j | 0 <= j < |sent + rest|
      ensures (sent + rest)[j].data[0] / 16 == Flipped(toggle, j) / 16
    {
      if sent != [] && j > 0 {
        FlipFlip(toggle, j - 1);
        assert (sent + rest)[j] == rest[j - 1];
      }
    }
  }

  /**
   * Toggle discipline: while the server sends segment responses, in whatever order and however
   * often, the frames sent alternate bit 4 and keep the command bits.
   */
  lemma {:induction false} ToggleDiscipline(st: IndexState, timer: int, limit: nat, events: seq<Event>)
    requires ValidState(st) && OnlySegments(events, st.node)
    ensures Alternate(Loop(st, timer, limit, events).sent, st.toggle)
    decreases |events|
  {
    if events != [] {
      var p := OnePass(st, timer, limit, events[0]);
      PassKeeps(st, timer, limit, events[0]);
      if p.result == Waiting {
        SegmentPass(st, timer, limit, events[0]);
        if p.sent != [] {
          AnswerHeader(st, events[0].frame.data);
        }
        ToggleDiscipline(p.st, p.timer, limit, events[1..]);
        AlternateNext(p.sent, st.toggle, p.st.toggle, Loop(p.st, p.timer, limit, events[1..]).sent);
      }
    }
  }

  lemma AnswerHeader(st: IndexState, data: seq<byte>)
    requires ValidState(st) && |data| == 8 && data[0] < 0x40 && ToggleStep(st, data).Send?
    ensures var r := ToggleStep(st, data);
            r.data[0] / 16 == st.toggle / 16 && r.st.toggle == Flip(st.toggle) && ValidState(r.st)
  {
    ToggleStepValid(st, data);
    if data[0] / 32 % 2 == 1 {
      HeaderBits(st.toggle, st.text.value);
    }
  }

  /** A request for an upload segment. */
  function Ask(node: nat, toggle: nat): Frame {
    CanFrame(RequestId(node), [toggle % 256] + Zeros(7))
  }

  /** `n` requests with alternating toggle bit. */
  function Asks(node: nat, toggle: nat, n: nat): seq<Frame>
    decreases n
  {
    if n == 0 then [] else [Ask(node, toggle)] + Asks(node, Flip(toggle), n - 1)
  }

  lemma {:induction false} AsksAlternate(node: nat, toggle: nat, n: nat, j: nat)
    requires ToggleByte(toggle) && j < n
    ensures |Asks(node, toggle, n)| == n && Asks(node, toggle, n)[j] == Ask(node, Flipped(toggle, j))
    decreases n
  {
    FlipFlip(toggle, 0);
    if n > 1 {
      AsksAlternate(node, Flip(toggle), n - 1, if j == 0 then 0 else j - 1);
    } else {
      assert Asks(node, Flip(toggle), 0) == [];
    }
    if j > 0 {
      FlipFlip(toggle, j - 1);
    }
  }

  /** A pass without an answer, or with one request, before requests in turn. */
  lemma AsksNext(node: nat, toggle: nat, sent: seq<Frame>, next: nat, rest: seq<Frame>)
    requires rest == Asks(node, next, |rest|)
    requires if sent == [] then next == toggle else sent == [Ask(node, toggle)] && next == Flip(toggle)
    ensures sent + rest == Asks(node, toggle, |sent + rest|)
  {
    assert sent == [] ==> sent + rest == rest;
  }

  /**
   * The upload segment requests a transfer sends are exactly its two toggle bytes in turn: after an
   * initiate response 0x60, 0x70, 0x60 and so on.
   */
  lemma {:induction false} UploadRequests(st: IndexState, timer: int, limit: nat, events: seq<Event>)
    requires ValidState(st) && OnlyUploads(events, st.node)
    ensures var sent := Loop(st, timer, limit, events).sent;
            sent == Asks(st.node, st.toggle, |sent|)
    decreases |events|
  {
    if events != [] {
      var p := OnePass(st, timer, limit, events[0]);
      PassKeeps(st, timer, limit, events[0]);
      if p.result == Waiting {
        UploadAnswer(st, timer, limit, events[0]);
        UploadRequests(p.st, p.timer, limit, events[1..]);
        AsksNext(st.node, st.toggle, p.sent, p.st.toggle, Loop(p.st, p.timer, limit, events[1..]).sent);
      }
    }
  }

  lemma UploadAnswer(st: IndexState, timer: int, limit: nat, e: Event)
    requires ValidState(st)
    requires e.Received? && IsReply(e.frame, st.node) ==> e.frame.data[0] < 0x20
    requires OnePass(st, timer, limit, e).result == Waiting
    ensures var p := OnePass(st, timer, limit, e);
            && ValidState(p.st)
            && (p.sent == [] ==> p.st == st)
            && (p.sent != [] ==>
                  && p.sent == [Ask(st.node, st.toggle)] && p.st.toggle == Flip(st.toggle)
                  && st.text.Some? && p.st.text.Some? && p.st.len == st.len
                  && |p.st.text.value| >= |st.text.value| + 7 && |p.st.text.value| < st.len)
  {
    SegmentPass(st, timer, limit, e);
    if OnePass(st, timer, limit, e).sent != [] {
      ToggleStepValid(st, e.frame.data);
    }
  }

  /**
   * During an upload every continuing step collects at least seven bytes and stays below the
   * announced length, which bounds the number of requests, and so of timer restarts.
   */
  lemma {:induction false} UploadRestarts(st: IndexState, timer: int, limit: nat, events: seq<Event>)
    requires ValidState(st) && OnlyUploads(events, st.node) && st.text.Some?
    ensures var n := |Loop(st, timer, limit, events).sent|;
            n > 0 ==> |st.text.value| + 7 * n < st.len
    decreases |events|
  {
    if events != [] {
      var p := OnePass(st, timer, limit, events[0]);
      PassKeeps(st, timer, limit, events[0]);
      if p.result == Waiting {
        UploadAnswer(st, timer, limit, events[0]);
        UploadRestarts(p.st, p.timer, limit, events[1..]);
      }
    }
  }

  /** The segments a string is cut into. */
  function Fragments(toggle: nat, s: seq<byte>): (fs: seq<seq<byte>>)
    ensures forall i :: 0 <= i < |fs| ==> |fs[i]| == 8
    decreases |s|
  {
    if s == [] then [] else [SegmentOf(toggle, s)] + Fragments(Flip(toggle), s[Chunk(s)..])
  }

  /** The number of segments of `n` bytes. */
  function Pieces(n: nat): nat {
    (n + 6) / 7
  }

  function Joined(fs: seq<seq<byte>>): (s: seq<byte>)
    requires forall i :: 0 <= i < |fs| ==> |fs[i]| == 8
  {
    if fs == [] then [] else Carried(fs[0]) + Joined(fs[1..])
  }

  lemma HeaderFields(toggle: nat, k: nat)
    requires toggle % 16 == 0 && k <= 7
    ensures var h := toggle + 2 * (7 - k) + (if k < 7 then 1 else 0);
            h / 2 % 8 == 7 - k && (h % 2 == 1 <==> k < 7)
  {
  }

  lemma PayloadOf(toggle: nat, s: seq<byte>)
    ensures SegmentOf(toggle, s)[1..1 + Chunk(s)] == s[..Chunk(s)]
  {
  }

  lemma CarriedOfSegment(toggle: nat, s: seq<byte>)
    requires ToggleByte(toggle)
    ensures Carried(SegmentOf(toggle, s)) == s[..Chunk(s)]
    ensures SegmentOf(toggle, s)[0] / 2 % 8 == 7 - Chunk(s)
    ensures LastBit(SegmentOf(toggle, s)) <==> Chunk(s) < 7
  {
    HeaderBits(toggle, s);
    HeaderFields(toggle, Chunk(s));
    PayloadOf(toggle, s);
  }

  lemma PiecesNext(n: nat)
    requires n > 0
    ensures Pieces(n) == 1 + Pieces(n - Min(7, n))
  {
  }

  lemma PieceStarts(n: nat, i: nat)
    requires i < Pieces(n)
    ensures 7 * i < n
  {
  }

  lemma {:induction false} FragmentCount(toggle: nat, s: seq<byte>)
    ensures |Fragments(toggle, s)| == Pieces(|s|)
    decreases |s|
  {
    if s != [] {
      FragmentCount(Flip(toggle), s[Chunk(s)..]);
      PiecesNext(|s|);
    }
  }

  lemma PieceExists(n: nat, i: nat)
    requires 7 * i < n
    ensures i < Pieces(n)
  {
  }

  lemma LaterFragments(toggle: nat, s: seq<byte>)
    requires |s| > 7
    ensures Fragments(toggle, s)[1..] == Fragments(Flip(toggle), s[7..])
  {
  }

  lemma LaterBytes(s: seq<byte>, i: nat)
    requires 0 < i && 7 * i <= |s|
    ensures s[7..][7 * (i - 1)..] == s[7 * i..]
  {
  }

  lemma {:induction false} FragmentIs(toggle: nat, s: seq<byte>, i: nat)
    requires ToggleByte(toggle) && 7 * i < |s|
    ensures i < |Fragments(toggle, s)| && Fragments(toggle, s)[i] == SegmentOf(Flipped(toggle, i), s[7 * i..])
    decreases |s|
  {
    FragmentCount(toggle, s);
    PieceExists(|s|, i);
    if i == 0 {
      assert s[7 * i..] == s;
    } else {
      FlipFlip(toggle, i - 1);
      FragmentIs(Flip(toggle), s[7..], i - 1);
      LaterBytes(s, i);
      LaterFragments(toggle, s);
      assert Fragments(toggle, s)[i] == Fragments(toggle, s)[1..][i - 1];
    }
  }

  /** Segment `i` carries the bytes from `7 * i` on, with the toggle bit flipped `i` times. */
  lemma FragmentAt(toggle: nat, s: seq<byte>, i: nat)
    requires ToggleByte(toggle)
    ensures |Fragments(toggle, s)| == Pieces(|s|)
    ensures i < Pieces(|s|) ==> 7 * i < |s| && Fragments(toggle, s)[i] == SegmentOf(Flipped(toggle, i), s[7 * i..])
    ensures ToggleByte(Flipped(toggle, i))
  {
    FragmentCount(toggle, s);
    FlipFlip(toggle, 0);
    if i < Pieces(|s|) {
      PieceStarts(|s|, i);
      FragmentIs(toggle, s, i);
    }
  }

  lemma {:induction false} FragmentsJoin(toggle: nat, s: seq<byte>)
    requires ToggleByte(toggle)
    ensures Joined(Fragments(toggle, s)) == s
    decreases |s|
  {
    if s != [] {
      CarriedOfSegment(toggle, s);
      FlipFlip(toggle, 0);
      FragmentsJoin(Flip(toggle), s[Chunk(s)..]);
      assert Fragments(toggle, s)[1..] == Fragments(Flip(toggle), s[Chunk(s)..]);
      assert s == s[..Chunk(s)] + s[Chunk(s)..];
    }
  }

  lemma LastPiece(n: nat, i: nat)
    requires i < Pieces(n)
    ensures 7 * i < n
    ensures i == Pieces(n) - 1 && n % 7 != 0 <==> n - 7 * i < 7
  {
    var q, r := n / 7, n % 7;
    assert n == 7 * q + r;
    PiecesOf(n, q, r);
  }

  lemma PiecesOf(n: nat, q: nat, r: nat)
    requires n == 7 * q + r && r < 7
    ensures Pieces(n) == if r == 0 then q else q + 1
  {
  }

  /** The bytes segment `i` of a string carries. */
  function PieceOf(s: seq<byte>, i: nat): seq<byte>
    requires 7 * i < |s|
  {
    s[7 * i..7 * i + Min(7, |s| - 7 * i)]
  }

  lemma FragmentCarries(toggle: nat, s: seq<byte>, i: nat)
    requires ToggleByte(toggle) && 7 * i < |s|
    ensures var f := SegmentOf(toggle, s[7 * i..]);
            && Carried(f) == PieceOf(s, i)
            && f[0] / 16 == toggle / 16
            && f[0] / 2 % 8 == 7 - Min(7, |s| - 7 * i)
            && (LastBit(f) <==> |s| - 7 * i < 7)
  {
    var rest := s[7 * i..];
    CarriedOfSegment(toggle, rest);
    HeaderBits(toggle, rest);
    assert rest[..Chunk(rest)] == PieceOf(s, i);
  }

  /**
   * Exact segmentation: a string of n bytes becomes ceil(n/7) segments whose payloads concatenate
   * to it; the unused count of segment i is 7 minus the bytes it carries, which is 0 except on the
   * last; and the last bit stands on the last segment exactly when n is no multiple of 7.
   */
  lemma FragmentsExact(toggle: nat, s: seq<byte>, i: nat)
    requires ToggleByte(toggle) && i < Pieces(|s|)
    ensures |Fragments(toggle, s)| == Pieces(|s|) && Joined(Fragments(toggle, s)) == s
    ensures 7 * i < |s|
    ensures var f := Fragments(toggle, s)[i];
            && f[0] / 16 == Flipped(toggle, i) / 16
            && f[0] / 2 % 8 == 7 - Min(7, |s| - 7 * i)
            && (LastBit(f) <==> i == Pieces(|s|) - 1 && |s| % 7 != 0)
            && Carried(f) == PieceOf(s, i)
  {
    FragmentAt(toggle, s, i);
    FragmentsJoin(toggle, s);
    LastPiece(|s|, i);
    FragmentCarries(Flipped(toggle, i), s, i);
  }

  lemma DownloadAnswer(st: IndexState, timer: int, limit: nat, e: Event)
    requires ValidState(st) && st.text.Some?
    requires e.Received? && IsReply(e.frame, st.node) ==> 0x20 <= e.frame.data[0] < 0x40
    requires OnePass(st, timer, limit, e).result == Waiting
    ensures var p := OnePass(st, timer, limit, e);
            var s := st.text.value;
            && ValidState(p.st)
            && (p.sent == [] ==> p.st == st)
            && (p.sent != [] ==>
                  && s != [] && p.sent == [CanFrame(RequestId(st.node), SegmentOf(st.toggle, s))]
                  && p.st.toggle == Flip(st.toggle) && p.st.text == Some(s[Chunk(s)..]))
  {
    SegmentPass(st, timer, limit, e);
    if OnePass(st, timer, limit, e).sent != [] {
      ToggleStepValid(st, e.frame.data);
    }
  }

  /** The first `n` segments of a string as frames. */
  function Segments(node: nat, toggle: nat, s: seq<byte>, n: nat): seq<Frame>
    decreases n
  {
    if n == 0 || s == [] then []
    else [CanFrame(RequestId(node), SegmentOf(toggle, s))] + Segments(node, Flip(toggle), s[Chunk(s)..], n - 1)
  }

  lemma {:induction false} SegmentCount(node: nat, toggle: nat, s: seq<byte>, n: nat)
    ensures |Segments(node, toggle, s, n)| == Min(n, Pieces(|s|))
    decreases n
  {
    if n > 0 && s != [] {
      SegmentCount(node, Flip(toggle), s[Chunk(s)..], n - 1);
      PiecesNext(|s|);
    }
  }

  lemma {:induction false} SegmentIs(node: nat, toggle: nat, s: seq<byte>, n: nat, j: nat)
    requires j < |Segments(node, toggle, s, n)|
    ensures j < |Fragments(toggle, s)|
    ensures Segments(node, toggle, s, n)[j] == CanFrame(RequestId(node), Fragments(toggle, s)[j])
    decreases n
  {
    if j > 0 {
      SegmentIs(node, Flip(toggle), s[Chunk(s)..], n - 1, j - 1);
    }
  }

  /** The frames of a download are the fragments of its text. */
  lemma SegmentsAreFragments(node: nat, toggle: nat, s: seq<byte>, n: nat, j: nat)
    ensures |Segments(node, toggle, s, n)| == Min(n, Pieces(|s|)) <= |Fragments(toggle, s)|
    ensures j < |Segments(node, toggle, s, n)| ==>
              Segments(node, toggle, s, n)[j] == CanFrame(RequestId(node), Fragments(toggle, s)[j])
  {
    SegmentCount(node, toggle, s, n);
    FragmentCount(toggle, s);
    if j < |Segments(node, toggle, s, n)| {
      SegmentIs(node, toggle, s, n, j);
    }
  }

  lemma {:induction false} DownloadSends(st: IndexState, timer: int, limit: nat, events: seq<Event>)
    requires ValidState(st) && OnlyDownloads(events, st.node) && st.text.Some?
    ensures var sent := Loop(st, timer, limit, events).sent;
            sent == Segments(st.node, st.toggle, st.text.value, |sent|)
    decreases |events|
  {
    if events != [] {
      var p := OnePass(st, timer, limit, events[0]);
      PassKeeps(st, timer, limit, events[0]);
      if p.result == Waiting {
        DownloadAnswer(st, timer, limit, events[0]);
        DownloadSends(p.st, p.timer, limit, events[1..]);
        SegmentsNext(st, p.st, p.sent, Loop(p.st, p.timer, limit, events[1..]).sent);
      }
    }
  }

  /** A pass without an answer, or with the first segment of the text, before the segments of the rest. */
  lemma SegmentsNext(st: IndexState, next: IndexState, sent: seq<Frame>, rest: seq<Frame>)
    requires st.text.Some? && next.text.Some? && next.node == st.node
    requires rest == Segments(next.node, next.toggle, next.text.value, |rest|)
    requires if sent == [] then next == st
             else
               var s := st.text.value;
               && s != [] && sent == [CanFrame(RequestId(st.node), SegmentOf(st.toggle, s))]
               && next.toggle == Flip(st.toggle) && next.text == Some(s[Chunk(s)..])
    ensures sent + rest == Segments(st.node, st.toggle, st.text.value, |sent + rest|)
  {
    assert sent == [] ==> sent + rest == rest;
  }

  /**
   * Whatever else is on the bus, a download sends the fragments of its text, each once and in
   * order; so it restarts its timer at most ceil(n/7) times.
   */
  lemma DownloadSendsFragments(st: IndexState, timer: int, limit: nat, events: seq<Event>)
    requires ValidState(st) && OnlyDownloads(events, st.node) && st.text.Some?
    ensures var sent := Loop(st, timer, limit, events).sent;
            sent == Segments(st.node, st.toggle, st.text.value, |sent|) && |sent| <= Pieces(|st.text.value|)
  {
    DownloadSends(st, timer, limit, events);
    SegmentsAreFragments(st.node, st.toggle, st.text.value, |Loop(st, timer, limit, events).sent|, 0);
  }

  /** After the initiate response of an upload the requests are 0x60, 0x70, 0x60 and so on. */
  lemma UploadAfterInitiate(st: IndexState, timer: int, limit: nat, f: Frame, now: int, rest: seq<Event>)
    requires ValidState(st) && st.value.StrV? && OnlyUploads(rest, st.node)
    requires IsReply(f, st.node) && f.data[0] == 0x41
    ensures var sent := Loop(st, timer, limit, [Received(f, true, now)] + rest).sent;
            sent == Asks(st.node, UPLOAD, |sent|)
    ensures f.data[4] as int + f.data[5] as int > 0 ==>
              |Loop(st, timer, limit, [Received(f, true, now)] + rest).sent| >= 1
  {
    var e := Received(f, true, now);
    var p := OnePass(st, timer, limit, e);
    assert ([e] + rest)[1..] == rest;
    ToggleStepValid(st, f.data);
    TransferPass(st, timer, limit, f, now);
    if p.result == Waiting {
      assert p.sent == [Ask(st.node, UPLOAD)];
      UploadRequests(p.st, p.timer, limit, rest);
    }
  }

  /** After the initiate response of a download the frames are the segments of the value, toggle bit 0 first. */
  lemma DownloadAfterInitiate(st: IndexState, timer: int, limit: nat, f: Frame, now: int, rest: seq<Event>)
    requires ValidState(st) && st.value.StrV? && OnlyDownloads(rest, st.node)
    requires IsReply(f, st.node) && f.data[0] == 0x60
    ensures var sent := Loop(st, timer, limit, [Received(f, true, now)] + rest).sent;
            sent == Segments(st.node, DOWNLOAD, Chars(st.value), |sent|) && |sent| <= Pieces(|Chars(st.value)|)
    ensures Chars(st.value) != [] ==> |Loop(st, timer, limit, [Received(f, true, now)] + rest).sent| >= 1
  {
    var e := Received(f, true, now);
    var p := OnePass(st, timer, limit, e);
    assert ([e] + rest)[1..] == rest;
    ToggleStepValid(st, f.data);
    TransferPass(st, timer, limit, f, now);
    if p.result == Waiting {
      DownloadSendsFragments(p.st, p.timer, limit, rest);
    }
  }

  const BLANKS: seq<byte> := [0x20, 0x20, 0x20, 0x20, 0x20, 0x20, 0x20]

  /** A server that asks for segments of both directions in turn. */
  function PingPong(node: nat, n: nat): (es: seq<Event>)
    requires 1 <= node < 128
    ensures |es| == 2 * n
  {
    if n == 0 then []
    else [Received(CanFrame(0x580 + node, [0x00] + BLANKS), true, 0),
          Received(CanFrame(0x580 + node, [0x20] + Zeros(7)), true, 0)] + PingPong(node, n - 1)
  }

  lemma FillStep(st: IndexState, data: seq<byte>, b: seq<byte>)
    requires |data| == 8 && data[0] == 0x00 && data[1..] == b && Ascii(b)
    requires st.value.StrV? && st.text == Some([]) && st.len > 7
    ensures ToggleStep(st, data) == Send(st.(text := Some(b), toggle := Flip(st.toggle)), [st.toggle % 256] + Zeros(7))
  {
    assert Carried(data) == b;
    Utf8Ascii(b);
    assert [] + b == b;
  }

  /** A full upload segment, when the client has nothing and expects more than that. */
  lemma FillPass(st: IndexState, timer: int, limit: nat)
    requires ValidState(st) && st.value.StrV? && 1 <= st.node < 128
    requires st.text == Some([]) && st.len > 7
    ensures var p := OnePass(st, timer, limit, Received(CanFrame(0x580 + st.node, [0x00] + BLANKS), true, 0));
            && p.result == Waiting && |p.sent| == 1 && ValidState(p.st) && SameEntry(p.st, st)
            && p.st.value == st.value && p.st.len == st.len && p.st.text == Some(BLANKS)
  {
    var f: Frame := CanFrame(0x580 + st.node, [0x00] + BLANKS);
    assert f.data[1..] == BLANKS;
    FillStep(st, f.data, BLANKS);
    ToggleStepValid(st, f.data);
    TransferPass(st, timer, limit, f, 0);
  }

  lemma DrainPass(st: IndexState, timer: int, limit: nat)
    requires ValidState(st) && st.value.StrV? && 1 <= st.node < 128 && st.text.Some? && st.text.value != []
    ensures var p := OnePass(st, timer, limit, Received(CanFrame(0x580 + st.node, [0x20] + Zeros(7)), true, 0));
            && p.result == Waiting && |p.sent| == 1 && ValidState(p.st) && SameEntry(p.st, st)
            && p.st.value == st.value && p.st.len == st.len
            && p.st.text == Some(st.text.value[Chunk(st.text.value)..])
  {
    var f: Frame := CanFrame(0x580 + st.node, [0x20] + Zeros(7));
    ToggleStepValid(st, f.data);
    TransferPass(st, timer, limit, f, 0);
  }

  lemma PingPongRound(st: IndexState, timer: int, limit: nat, n: nat)
    requires ValidState(st) && st.value.StrV? && 1 <= st.node < 128 && n > 0
    requires st.text == Some([]) && st.len > 7
    ensures var es := PingPong(st.node, n);
            var p := OnePass(st, timer, limit, es[0]);
            var q := OnePass(p.st, p.timer, limit, es[1]);
            && p.result == q.result == Waiting && |p.sent| == |q.sent| == 1
            && ValidState(q.st) && q.st.text == Some([]) && q.st.len == st.len
            && SameEntry(q.st, st) && q.st.value == st.value
  {
    FillPass(st, timer, limit);
    var p := OnePass(st, timer, limit, PingPong(st.node, n)[0]);
    DrainPass(p.st, p.timer, limit);
    assert p.st.text.value[Chunk(p.st.text.value)..] == [];
  }

  lemma PingPongUnfolds(node: nat, n: nat)
    requires 1 <= node < 128 && n > 0
    ensures var es := PingPong(node, n); es == [es[0], es[1]] + PingPong(node, n - 1)
  {
  }

  lemma {:induction false} PingPongSegments(node: nat, n: nat)
    requires 1 <= node < 128
    ensures OnlySegments(PingPong(node, n), node)
  {
    if n > 0 {
      PingPongSegments(node, n - 1);
    }
  }

  lemma TwoPasses(st: IndexState, timer: int, limit: nat, a: Event, b: Event, rest: seq<Event>)
    requires var p := OnePass(st, timer, limit, a);
             p.result == OnePass(p.st, p.timer, limit, b).result == Waiting
    ensures var p := OnePass(st, timer, limit, a);
            var q := OnePass(p.st, p.timer, limit, b);
            var r := Loop(q.st, q.timer, limit, rest);
            && Loop(st, timer, limit, [a, b] + rest).result == r.result
            && |Loop(st, timer, limit, [a, b] + rest).sent| == |p.sent| + |q.sent| + |r.sent|
  {
    assert ([a, b] + rest)[1..] == [b] + rest;
    assert ([b] + rest)[1..] == rest;
  }

  lemma PingPongStep(st: IndexState, timer: int, limit: nat, n: nat) returns (q: Pass)
    requires ValidState(st) && st.value.StrV? && 1 <= st.node < 128 && n > 0
    requires st.text == Some([]) && st.len > 7
    ensures && ValidState(q.st) && q.st.text == Some([]) && q.st.len == st.len
            && SameEntry(q.st, st) && q.st.value == st.value
    ensures var r := Loop(q.st, q.timer, limit, PingPong(st.node, n - 1));
            && Loop(st, timer, limit, PingPong(st.node, n)).result == r.result
            && |Loop(st, timer, limit, PingPong(st.node, n)).sent| == 2 + |r.sent|
  {
    var es := PingPong(st.node, n);
    PingPongRound(st, timer, limit, n);
    var p := OnePass(st, timer, limit, es[0]);
    q := OnePass(p.st, p.timer, limit, es[1]);
    PingPongUnfolds(st.node, n);
    TwoPasses(st, timer, limit, es[0], es[1], PingPong(st.node, n - 1));
  }

  /**
   * The two bounds need traffic of one direction: without any repeated initiate, a server that
   * alternates segments of both directions keeps a transfer of more than seven bytes alive for ever.
   */
  lemma {:induction false} PingPongNeverEnds(st: IndexState, timer: int, limit: nat, n: nat)
    requires ValidState(st) && st.value.StrV? && 1 <= st.node < 128
    requires st.text == Some([]) && st.len > 7
    ensures OnlySegments(PingPong(st.node, n), st.node)
    ensures Loop(st, timer, limit, PingPong(st.node, n)).result == Waiting
    ensures |Loop(st, timer, limit, PingPong(st.node, n)).sent| == 2 * n
    decreases n
  {
    PingPongSegments(st.node, n);
    if n > 0 {
      var q := PingPongStep(st, timer, limit, n);
      PingPongNeverEnds(q.st, q.timer, limit, n - 1);
    }
  }

  /** Where at most seven bytes are announced, an upload segment ends the transfer, so only downloads go on. */
  lemma ShortAnswer(st: IndexState, timer: int, limit: nat, e: Event)
    requires ValidState(st) && st.text.Some? && st.len <= 7
    requires e.Received? && IsReply(e.frame, st.node) ==> e.frame.data[0] < 0x40
    requires OnePass(st, timer, limit, e).result == Waiting
    ensures var p := OnePass(st, timer, limit, e);
            && ValidState(p.st) && p.st.len == st.len
            && (p.sent == [] ==> p.st == st)
            && (p.sent != [] ==>
                  && |p.sent| == 1 && st.text.value != []
                  && p.st.text.Some? && |p.st.text.value| == |st.text.value| - Chunk(st.text.value))
  {
    SegmentPass(st, timer, limit, e);
    if OnePass(st, timer, limit, e).sent != [] {
      ToggleStepValid(st, e.frame.data);
    }
  }

  lemma {:induction false} ShortRestarts(st: IndexState, timer: int, limit: nat, events: seq<Event>)
    requires ValidState(st) && OnlySegments(events, st.node) && st.text.Some? && st.len <= 7
    ensures |Loop(st, timer, limit, events).sent| <= Pieces(|st.text.value|)
    decreases |events|
  {
    if events != [] {
      var p := OnePass(st, timer, limit, events[0]);
      PassKeeps(st, timer, limit, events[0]);
      if p.result == Waiting {
        ShortAnswer(st, timer, limit, events[0]);
        ShortRestarts(p.st, p.timer, limit, events[1..]);
        if p.sent != [] {
          PiecesNext(|st.text.value|);
        }
      }
    }
  }

  /** The pending text is first fetched from the client, then segments of both directions follow in turn. */
  function DrainThenPingPong(node: nat, text: seq<byte>, n: nat): (es: seq<Event>)
    requires 1 <= node < 128
    decreases |text|
  {
    if text == [] then PingPong(node, n)
    else
      [Received(CanFrame(0x580 + node, [0x20] + Zeros(7)), true, 0)] + DrainThenPingPong(node, text[Chunk(text)..], n)
  }

  lemma {:induction false} NeverEnds(st: IndexState, timer: int, limit: nat, n: nat)
    requires ValidState(st) && st.value.StrV? && 1 <= st.node < 128 && st.text.Some? && st.len > 7
    ensures OnlySegments(DrainThenPingPong(st.node, st.text.value, n), st.node)
    ensures |Loop(st, timer, limit, DrainThenPingPong(st.node, st.text.value, n)).sent| >= 2 * n
    decreases |st.text.value|
  {
    if st.text.value == [] {
      PingPongNeverEnds(st, timer, limit, n);
    } else {
      var es := DrainThenPingPong(st.node, st.text.value, n);
      DrainPass(st, timer, limit);
      var p := OnePass(st, timer, limit, es[0]);
      NeverEnds(p.st, p.timer, limit, n);
      assert es[1..] == DrainThenPingPong(st.node, p.st.text.value, n);
    }
  }

  /** No trace of segment responses makes the loop send more than `bound` frames, or restart more often. */
  ghost predicate Bounded(st: IndexState, timer: int, limit: nat, bound: nat) {
    forall events :: OnlySegments(events, st.node) ==> |Loop(st, timer, limit, events).sent| <= bound
  }

  /**
   * Termination: on an object that has begun a transfer, the number of timer restarts over all
   * traces of segment responses, of both directions and in any order, has a bound exactly if at most
   * seven bytes are announced.
   */
  lemma RestartsBounded(st: IndexState, timer: int, limit: nat)
    requires ValidState(st) && st.value.StrV? && 1 <= st.node < 128 && st.text.Some?
    ensures (exists bound :: Bounded(st, timer, limit, bound)) <==> st.len <= 7
    ensures st.len <= 7 ==> Bounded(st, timer, limit, Pieces(|st.text.value|))
  {
    if st.len <= 7 {
      forall events | OnlySegments(events, st.node)
        ensures |Loop(st, timer, limit, events).sent| <= Pieces(|st.text.value|)
      {
        ShortRestarts(st, timer, limit, events);
      }
      assert Bounded(st, timer, limit, Pieces(|st.text.value|));
    } else {
      forall bound: nat
        ensures !Bounded(st, timer, limit, bound)
      {
        NeverEnds(st, timer, limit, bound + 1);
        assert OnlySegments(DrainThenPingPong(st.node, st.text.value, bound + 1), st.node);
      }
    }
  }
}
