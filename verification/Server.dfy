/**
 * A small SDO server after section 7.2.4.3 of CiA 301: expedited and segmented transfers of its
 * object dictionary.  A download is complete when a segment carries the last bit; a server that
 * counts also completes it when the declared number of bytes has come in.
 */
module Server {
  import opened Bytes
  import opened Wrappers
  import opened Segmentation
  import Address

  type Key = (nat, nat)

  /** Numbers are sent expedited, texts in segments. */
  datatype Entry = Numeric(bytes: seq<byte>) | Characters(bytes: seq<byte>)

  datatype Transfer =
    | NoTransfer
    | Downloading(key: Key, size: nat, buffer: seq<byte>, toggle: nat)
    | Uploading(rest: seq<byte>, toggle: nat)

  datatype SdoServer = SdoServer(dictionary: map<Key, Entry>, transfer: Transfer, counts: bool)

  /** A server step: the new server and its reply, if it sends one. */
  datatype Served = Served(server: SdoServer, reply: Option<seq<byte>>)

  const TOGGLE_NOT_ALTERNATED := 0x0503_0000
  const COMMAND_NOT_VALID := 0x0504_0001
  const NO_SUCH_OBJECT := 0x0602_0000

  function Aborted(s: SdoServer, data: seq<byte>, code: nat): Served
    requires |data| == 8
  {
    Served(s.(transfer := NoTransfer), Some([0x80] + data[1..4] + Word4(code)))
  }

  function Committed(s: SdoServer, key: Key, entry: Entry): SdoServer {
    s.(dictionary := s.dictionary[key := entry], transfer := NoTransfer)
  }

  function InitiateDownload(s: SdoServer, data: seq<byte>): Served
    requires |data| == 8
  {
    var key := Address.Unpacked(data);
    var ack := Some([0x60] + data[1..4] + Zeros(4));
    if data[0] / 2 % 2 == 1 then
      var unused := if data[0] % 2 == 1 then data[0] / 4 % 4 else 0;
      Served(Committed(s, key, Numeric(data[4..8 - unused])), ack)
    else if data[0] % 2 == 1 then
      var size := LittleEndian(data[4..]);
      if size == 0 then Served(Committed(s, key, Characters([])), ack)
      else Served(s.(transfer := Downloading(key, size, [], 0)), ack)
    else Aborted(s, data, COMMAND_NOT_VALID)
  }

  function DownloadSegment(s: SdoServer, data: seq<byte>): Served
    requires |data| == 8
  {
    match s.transfer
    case Downloading(key, size, buffer, toggle) =>
      if data[0] / 16 % 2 != toggle then Aborted(s, data, TOGGLE_NOT_ALTERNATED)
      else
        var buffer' := buffer + Carried(data);
        var ack := Some([(0x20 + 16 * toggle) % 256] + Zeros(7));
        if LastBit(data) || (s.counts && |buffer'| >= size) then Served(Committed(s, key, Characters(buffer')), ack)
        else Served(s.(transfer := Downloading(key, size, buffer', 1 - toggle)), ack)
    case _ => Aborted(s, data, COMMAND_NOT_VALID)
  }

  function InitiateUpload(s: SdoServer, data: seq<byte>): Served
    requires |data| == 8
  {
    var key := Address.Unpacked(data);
    if key !in s.dictionary then Aborted(s, data, NO_SUCH_OBJECT)
    else
      var b := s.dictionary[key].bytes;
      if s.dictionary[key].Numeric? && 1 <= |b| <= 4 then
        Served(s.(transfer := NoTransfer), Some([0x43 + 4 * (4 - |b|)] + data[1..4] + b + Zeros(4 - |b|)))
      else
        Served(s.(transfer := Uploading(b, 0)), Some([0x41] + data[1..4] + Word4(|b|)))
  }

  /** The upload segment with the first bytes of `rest`; the last bit tells that nothing follows. */
  function UploadReply(rest: seq<byte>, toggle: nat): (data: seq<byte>)
    ensures |data| == 8
  {
    var k := Chunk(rest);
    [(16 * toggle + 2 * (7 - k) + (if |rest| <= 7 then 1 else 0)) % 256] + rest[..k] + Zeros(7 - k)
  }

  function UploadSegment(s: SdoServer, data: seq<byte>): Served
    requires |data| == 8
  {
    match s.transfer
    case Uploading(rest, toggle) =>
      if data[0] / 16 % 2 != toggle then Aborted(s, data, TOGGLE_NOT_ALTERNATED)
      else
        var next := if |rest| <= 7 then NoTransfer else Uploading(rest[7..], 1 - toggle);
        Served(s.(transfer := next), Some(UploadReply(rest, toggle)))
    case _ => Aborted(s, data, COMMAND_NOT_VALID)
  }

  /** One client request. */
  function Serve(s: SdoServer, data: seq<byte>): (r: Served)
    requires |data| == 8
    ensures r.reply.Some? ==> |r.reply.value| == 8
  {
    match data[0] / 32
    case 0 => DownloadSegment(s, data)
    case 1 => InitiateDownload(s, data)
    case 2 => InitiateUpload(s, data)
    case 3 => UploadSegment(s, data)
    case 4 => Served(s.(transfer := NoTransfer), None)
    case _ => Aborted(s, data, COMMAND_NOT_VALID)
  }
}
