/**
 * What one SDO server frame does to an index object of string type: the specification of
 * `node_index_object_toggle` and its two helpers, as a function on the object's fields.
 */
module Segmentation {
  import opened Bytes
  import opened Wrappers
  import opened Text
  import opened Values

  /** The fields of an index object; `text` is the string under transfer, or null. */
  datatype IndexState = IndexState(
    node: nat, index: nat, subindex: nat, dataType: nat,
    value: Value, text: Option<seq<byte>>, toggle: nat, len: nat)

  const DOWNLOAD := 0x00
  const UPLOAD := 0x60

  predicate ToggleByte(t: nat) {
    t == DOWNLOAD || t == Flip(DOWNLOAD) || t == UPLOAD || t == Flip(UPLOAD)
  }

  predicate ValidState(st: IndexState) {
    && WellTyped(st.value)
    && TypeOf(st.value) == GTypeFor(st.dataType)
    && ToggleByte(st.toggle)
  }

  /** The outcome of one server frame: a request to send, the end of the transfer, or a null access. */
  datatype Step =
    | Send(st: IndexState, data: seq<byte>)
    | Stop(st: IndexState)
    | Crash

  /** Number of bytes the next segment carries. */
  function Chunk(s: seq<byte>): (k: nat)
    ensures k <= 7 && k <= |s|
  {
    Min(7, |s|)
  }

  /** A segment: command byte with toggle, unused count and last bit, then up to seven bytes. */
  function SegmentOf(toggle: nat, s: seq<byte>): (frame: seq<byte>)
    ensures |frame| == 8
  {
    var k := Chunk(s);
    [(toggle + 2 * (7 - k) + (if k < 7 then 1 else 0)) % 256] + s[..k] + Zeros(7 - k)
  }

  /** The bytes a segment carries, by its unused count. */
  function Carried(frame: seq<byte>): (s: seq<byte>)
    requires |frame| == 8
    ensures |s| == 7 - frame[0] / 2 % 8
  {
    frame[1..8 - frame[0] / 2 % 8]
  }

  predicate LastBit(frame: seq<byte>)
    requires |frame| == 8
  {
    frame[0] % 2 == 1
  }

  /** The next download segment, or the end when nothing is left. */
  function SendSegment(st: IndexState): Step
  {
    if st.text.None? || st.text.value == [] then Stop(st)
    else
      var s := st.text.value;
      Send(st.(text := Some(s[Chunk(s)..]), toggle := Flip(st.toggle)), SegmentOf(st.toggle, s))
  }

  /** One upload segment: collect, then either store the text or ask for the next segment. */
  function TakeSegment(st: IndexState, rdata: seq<byte>): Step
    requires |rdata| == 8
  {
    if st.text.None? then Crash
    else
      var s := st.text.value + Utf8(Carried(rdata));
      if |Carried(rdata)| < 7 || LastBit(rdata) || st.len <= |s| then
        Stop(st.(text := Some(s), value := StrV(Some(Escape(CString(s))))))
      else
        Send(st.(text := Some(s), toggle := Flip(st.toggle)), [st.toggle % 256] + Zeros(7))
  }

  function BeginUpload(st: IndexState, rdata: seq<byte>): Step
    requires |rdata| == 8
  {
    var len := rdata[4] as int + 256 * rdata[5] as int;
    var st' := st.(text := Some([]), len := len);
    if len < 1 then Stop(st'.(toggle := UPLOAD, value := StrV(Some([]))))
    else Send(st'.(toggle := Flip(UPLOAD)), [UPLOAD] + Zeros(7))
  }

  function BeginDownload(st: IndexState): Step
  {
    SendSegment(st.(toggle := DOWNLOAD, len := 0, text := Some(Chars(st.value))))
  }

  /** `node_index_object_toggle` on a server frame `rdata`. */
  function ToggleStep(st: IndexState, rdata: seq<byte>): (r: Step)
    requires |rdata| == 8
    ensures r.Send? ==> |r.data| == 8
  {
    if !st.value.StrV? then Stop(st)
    else if rdata[0] == 0x41 then BeginUpload(st, rdata)
    else if rdata[0] == 0x60 then BeginDownload(st)
    else if rdata[0] < 0x20 then TakeSegment(st, rdata)
    else if rdata[0] / 32 % 2 == 1 then SendSegment(st)
    else Send(st.(toggle := Flip(st.toggle)), Zeros(8))
  }

  /** Whatever frame comes in, a valid index state stays valid. */
  lemma ToggleStepValid(st: IndexState, rdata: seq<byte>)
    requires ValidState(st) && |rdata| == 8
    ensures var r := ToggleStep(st, rdata); !r.Crash? ==> ValidState(r.st)
  {
  }

  /** Only the two initiate responses change the length a transfer expects: to the one announced, or to none. */
  lemma LengthExpected(st: IndexState, rdata: seq<byte>)
    requires st.value.StrV? && |rdata| == 8
    ensures var r := ToggleStep(st, rdata);
            !r.Crash? ==> r.st.len == if rdata[0] == 0x41 then LittleEndian(rdata[4..6])
                                      else if rdata[0] == 0x60 then 0 else st.len
  {
    LittleEndian2(rdata[4..6]);
  }
}
