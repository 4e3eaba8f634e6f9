# CAN daemon: the SDO client

A model of the CANopen SDO client in `can-daemon/src`, with proofs about every trace of bus events.
The client reads and writes entries of the object dictionaries of CAN nodes with the expedited and
the segmented protocol of section 7.2.4.3 of CiA 301.

## How it is built

Code that works by changing things is modelled by classes: `NodeIndexObject` (one dictionary entry
and the transfer in progress), `NodeDeviceObject` (the bus), `NodeObject` (the table and list of
entries of a node) and `NodeDigitalObject` (16 outputs behind a shadow word). Each method is proved
against a specification function on the object's fields; the properties are lemmas about those
functions.

| file | content |
|---|---|
| `Bytes`, `Words`, `Text`, `Values`, `Address` | octets and masks, 32-bit words, GLib string operations, values and their 32-bit form, object ids |
| `Segmentation`, `IndexObject` | one server frame against one index object: specification and class |
| `Client`, `DeviceObject` | frame classification and the two loops: specification and class |
| `Resets` | which resets draining the bus reports |
| `Traces`, `Discipline`, `Reassembly` | what holds of the loops over every trace, segment traffic, writer against reader |
| `Server`, `Runs`, `Transfers` | an SDO server after CiA 301, and client and server on one bus under a schedule |
| `Writing`, `Reading`, `ExpeditedTransfers`, `LateReplies` | whole transfers act like one assignment or one fetch, also when they are cut short; and what late replies do to them |
| `NodeObjects`, `Panel`, `DigitalObject` | nodes, the outputs of a digital node with their shadow word |
| `OutputRegister`, `RegisterLimits`, `Sentinel` | runs of output writes against the server that holds the register |
| `Calls` | transfers and output writes on the objects |

The outside is a parameter. One call gets an `Exchange`: the frames waiting on the bus, whether the
request is accepted, and one event for each pass of its loop, either a frame (with whether the bus
accepts an answer, and the time the pass ends) or an idle tick (with the time). After the last event
the bus is silent, so a loop that still waits then runs into its time limit and the call fails.

For whole transfers the events are not free. A session (`Transfers.Session`) says whether the bus
accepts the request, which late frames of earlier traffic still come in, and a schedule: when a reply
of the server is delivered, whether the bus takes the answer the client has to it, and what other
frames and idle ticks come in between. `TraceOf` gives the events the client then sees, and `OutcomeIsTransaction` that playing a session is what `WriteIndex`
and `ReadIndex` ensure; `Calls` states the main results on the objects. The server answers a request
at once, and its reply waits until it is delivered. It completes a download with the last bit; whether
it also does when it has counted the declared number of bytes is a parameter, `counts`.

A schedule is benign when the other frames are noise (`Traces.IsNoise`), the bus takes every answer and
no tick expires. Where calls may be cut short, the other frames are bystanders, which include boot-up
and heartbeat frames of any node, ticks are arbitrary, and the bus may refuse any answer. The results
about the output register (`OutputRegister`, `RegisterLimits`, `Sentinel`) hold under all schedules.

## What the code does, where one might expect something else

- A download whose length is a multiple of 7 has no segment with the last bit. A server that waits for
  that bit acknowledges such a string and never stores it (`StoredExactly`); one that counts does.
- The declared size counts characters within the first 4095 bytes. A server that counts stores ASCII
  whole exactly up to 4095 bytes; of a longer string it stores the first part, and the call never
  completes (`StoredWhole`).
- When the bus refuses a segment, or the request for one, the call ends at once and reports success,
  with the transfer cut off where it was (`SegmentRefused`, `RequestRefused`); only after an initiate
  upload response does it go on waiting.
- A write that fails may have changed the entry, and one that succeeds may not: `WriteIsAtomic` says
  exactly when. The entry changes by the replies the client heard, and a call succeeds without
  hearing all of them exactly if a boot-up or heartbeat frame or a refused answer ended it. A number
  is assigned as soon as the bus took the request (`NumberWriteIsAtomic`).
- An upload looks at two bytes of the announced length, appends bytes as code points (0x80 and above
  grow to two bytes, so the length test can stop it early) and escapes the result. `StringRead`
  covers every text; `ReadExactly` says when it is read whole and comes back unchanged. A longer text
  can be cut and still come back (`CutAndYetEqual`).
- An upload segment before any initiate reads a null string. This is the class `Crashed`;
  `CrashCondition` says exactly when it happens, `NoCrashAfterInitiate` that it cannot happen again
  on an object that has begun a transfer.
- Any frame with an id above 0x700 ends a call with success and without a value
  (`SuccessWithoutValue`). Draining the bus and waiting in a call report the same resets except for
  nodes 0 and 124 below 0x800, and nodes 1 to 123 from 0x800 on (`DrainAndCallAgree`).
- Replies are not matched with requests. A call is left alone by late frames exactly if they are all
  noise for the node (`LateFrames`, `OwnReplyExactly`); otherwise a late value of another entry is
  taken for this one (`LateReplyTaken`), and a late acknowledgement completes the write of a number
  (`LateAckTaken`). Of a string it makes the client send the first segment twice, which the server
  aborts: strings of at most seven bytes survive that, the call for a longer one never completes
  (`LateAckExactly`). Such frames are what calls that timed out leave behind (`SecondReadWrong`,
  `AckLeftOver`).
- An idle tick at exactly 1 000 000 microseconds does not expire (`ExpiresPastLimit`).
- The number of timer restarts is bounded exactly if at most seven bytes are announced
  (`RestartsBounded`). Beyond that a server that asks for segments of both directions in turn keeps a
  transfer alive without any repeated initiate; with segments of one direction there are the bounds of
  `UploadRestarts` and `DownloadSendsFragments`.
- Booleans are always written as 0, and signed values of one or two bytes come back without sign;
  `ReadBackExact` lists exactly the values that survive.
- The reset report of node 0 is repeated, since its mark in the table is 0.
- The output entry `6300sub1` has 16 bits, so bits 16 to 31 of the shadow word never reach the device,
  although the call takes any bit number.
- A boot-up or heartbeat frame that ends the load of the shadow before its reply makes the word of the
  index object, 0 when it is new, pass for the register; the write that follows then clears the other
  outputs (`OutputsCleared`). So does a late value of another entry. `LoadsRightExactly` says exactly
  which loads are right, by the frame that ends them, and `RunRightExactly` after which runs the register
  is, by the first load that succeeds.
- The call for an output returns false when its acknowledgement is late, and the register has changed
  (`LateAckChanges`); `WriteReturns` says exactly what the returned value tells.
- An output request the bus refuses stays in the shadow and goes out with the next write
  (`ShadowHoldsAll`). All ones in the shadow mean that it was not loaded, so a request is lost in some run
  exactly for first values of the register whose high half is all ones (`DistinctExactly`); a device
  that answers with two bytes has none of these (`DigitalRegister`).
- The comments on the fields `digitVal` and `digitINVal` name the wrong direction; the model follows
  the code, where `digitVal` holds the outputs.

## Model

| member | source | states |
|---|---|---|
| `Bytes.MasksAgree` | can-daemon/src/node-device-object.c:755-825 | the arithmetic used for `& 0x01`, `& 0x02`, `& 0x0C`, `& 0x0E`, `& 0x20`, `& 0xE0` and `^ 0x10` equals the bit operation on every octet |
| `Bytes.Word4Prefix` | can-daemon/src/node-device-object.c:1512-1515 | the first 1, 2 or 4 bytes of a packed word read back as the word modulo 256 to that power |
| `Text.StoredIsIdentity` | can-daemon/src/node-index-object.c:664-667 | appending as code points, cutting at zero and escaping gives back a byte string exactly when it is printable ASCII without quote and backslash |
| `Text.Utf8OfDecodes` | can-daemon/src/node-index-object.c:664 | a byte is appended as the one or two bytes whose code point it is |
| `Text.EscapeRoundTrip` | can-daemon/src/node-index-object.c:666 | unescaping an escaped string gives the string back |
| `Text.DeclaredSizeCounts` | can-daemon/src/node-index-object.c:183 | the declared size is the number of UTF-8 characters that end within 4095 bytes |
| `Text.DeclaredSizeAscii` | can-daemon/src/node-index-object.c:179-183 | the declared size of an ASCII string is its length, at most 4095 |
| `Address.ParseOfPrinted` | can-daemon/src/node-index-object.c:414-440 | parsing `<index>sub<subindex>` printed in hexadecimal, in digits of any case, recovers every pair of 32-bit numbers, and without `sub` the subindex is 0 |
| `Address.FindSubIsFirst` | can-daemon/src/node-index-object.c:416-432 | an id is split at the first `sub` |
| `Address.ParseOfLong` | can-daemon/src/node-index-object.c:424-434 | of a longer index part the first nine digits count |
| `Address.StrtoullReads` | can-daemon/src/node-index-object.c:432-438 | blanks before a number and its sign are taken as C does |
| `Address.MagnitudeOf` | can-daemon/src/node-index-object.c:432-438 | `0x` before the digits and what follows them does not count, and the number is clamped to 64 bits and cut to 32 |
| `Address.AddressRoundTrip` | can-daemon/src/node-device-object.c:952-955 | printed in digits of any case, parsed, packed into bytes 1 to 3 and unpacked, an address survives exactly when it has 16 and 8 bits |
| `IndexObject.NodeIndexObject.constructor` | can-daemon/src/node-index-object.c:372-406 | which data types make which type of value, and the zero the new object holds |
| `IndexObject.NodeIndexObject.SetValue32` | can-daemon/src/node-index-object.c:211-253 | for each type of value the new value is what the word stands for; strings are left alone; failure is reported for booleans and strings |
| `IndexObject.NodeIndexObject.SetValue` | can-daemon/src/node-index-object.c:267-288 | a value of the object's type is stored as it is, else what GLib transforms it to if that has the type, else nothing changes and the call fails |
| `IndexObject.NodeIndexObject.InitWdataPackage` | can-daemon/src/node-index-object.c:591-628 | the buffer holds the next segment of the pending text and the text loses exactly those bytes; nothing pending means failure |
| `IndexObject.NodeIndexObject.InitRdataPackage` | can-daemon/src/node-index-object.c:630-672 | appends the bytes carried; a short or last segment or the announced length stores the escaped text |
| `IndexObject.NodeIndexObject.Toggle` | can-daemon/src/node-index-object.c:674-715 | on every server frame the new state and the answer are those of `ToggleStep` |
| `Segmentation.ToggleStepValid` | can-daemon/src/node-index-object.c:674-715 | the toggle byte is always one of 0x00, 0x10, 0x60, 0x70 and the value keeps its type, whatever frames come in |
| `Segmentation.LengthExpected` | can-daemon/src/node-index-object.c:682-703 | the length a transfer expects is the one in bytes 4 and 5 of the initiate upload response, none for a download, and no other frame changes it |
| `Discipline.HeaderBits` | can-daemon/src/node-index-object.c:601-625 | adding unused count and last bit changes neither toggle bit nor command bits and never overflows |
| `Discipline.FragmentsExact` | can-daemon/src/node-index-object.c:591-628 | a string of n bytes is cut into ceil(n/7) segments that join to it, with exact unused counts and the last bit only on the last segment, exactly when n is no multiple of 7 |
| `Discipline.DownloadAfterInitiate` | can-daemon/src/node-index-object.c:696-711 | after the initiate response the frames sent are the segments of the value in order, toggle bit 0 first, whatever other traffic there is |
| `Discipline.DownloadSendsFragments` | can-daemon/src/node-index-object.c:704-713 | over every trace a download sends each segment once and in order, so it restarts its timer at most ceil(n/7) times |
| `Discipline.SegmentsAreFragments` | can-daemon/src/node-index-object.c:591-628 | the frames of a download are the fragments of its text |
| `Discipline.UploadAfterInitiate` | can-daemon/src/node-index-object.c:681-714 | after the initiate response the requests are 0x60, 0x70, 0x60 and so on |
| `Discipline.UploadRequests` | can-daemon/src/node-index-object.c:704-714 | over every trace of upload segments the requests are the two toggle bytes in turn |
| `Discipline.AsksAlternate` | can-daemon/src/node-index-object.c:713 | request j has the toggle bit flipped j times and seven zero bytes |
| `Discipline.ToggleDiscipline` | can-daemon/src/node-index-object.c:704-714 | over every trace of segment responses in both directions bit 4 of the frames sent alternates and the command bits stay |
| `Discipline.UploadRestarts` | can-daemon/src/node-index-object.c:664-671 | each request of an upload costs seven bytes of the announced length, which bounds the timer restarts |
| `Discipline.RestartsBounded` | can-daemon/src/node-index-object.c:664-711 | over all traces of segment responses of both directions, the number of timer restarts of a transfer has a bound if and only if at most seven bytes are announced |
| `Reassembly.FragmentsReassemble` | can-daemon/src/node-index-object.c:630-672 | a reader that expects at least the string takes all its segments; it stops exactly if the last is short or the length is reached |
| `Reassembly.RoundTrip` | can-daemon/src/node-index-object.c:591-672 | the segments of any ASCII string rebuild it, and the stored value is the string exactly when it is plain |
| `Reassembly.LengthTestNeeded` | can-daemon/src/node-index-object.c:665 | for a multiple of seven bytes only the length test stops the reader |
| `DeviceObject.NodeDeviceObject.ProcessIndex` | can-daemon/src/node-device-object.c:691-855 | class, index state and frames sent for every frame are those of `Process` |
| `DeviceObject.NodeDeviceObject.RunPass` | can-daemon/src/node-device-object.c:1015-1050 | one pass of a loop, with timer, limit and result, is `OnePass` |
| `DeviceObject.NodeDeviceObject.RunLoop` | can-daemon/src/node-device-object.c:1015-1053 | the loop over a trace ends in the state, with the result, the frames and the consumed events of `Loop` |
| `DeviceObject.NodeDeviceObject.RequestAndRead` | can-daemon/src/node-device-object.c:859-1061 | sends the initiate upload request, byte for byte, and runs the loop, unless the bus refuses the request; a tick `e` microseconds after the last restart fails it exactly if `e` is above 200000 and not 1000000 |
| `DeviceObject.NodeDeviceObject.ReadIndex` | can-daemon/src/node-device-object.c:1414-1445 | drains, reads, reports the resets drained and then the one that ended the call, exactly if its last frame announces one; succeeds exactly on completion or reset, keeps the limit of 200 ms, and a closed device changes nothing |
| `DeviceObject.NodeDeviceObject.InitiateDownload` | can-daemon/src/node-device-object.c:1490-1515 | for every data type of the table the command byte is that of an initiate download whose unused count matches the width; a server reads the 16-bit index, the 8-bit subindex and the number of the value, or the declared size of a string, from the request |
| `DeviceObject.NodeDeviceObject.WriteIndex` | can-daemon/src/node-device-object.c:1447-1571 | the same for a write, with the limit of 100 ms |
| `DeviceObject.NodeDeviceObject.Open` | can-daemon/src/node-device-object.c:1282-1316 | the device is open exactly when its descriptor is positive, also if the file is gone and an old descriptor is left |
| `DeviceObject.NodeDeviceObject.ReadSystemMessage` | can-daemon/src/node-device-object.c:543-580 | draining a queue reports exactly the first announcement of each node |
| `Resets.ReportedOnce` | can-daemon/src/node-device-object.c:570-576 | each node 1 to 124 with an id between 0x700 and 0x800 in the queue is reported exactly once, and no other |
| `Resets.ReportedInOrder` | can-daemon/src/node-device-object.c:561-577 | reports come in the order of first announcement |
| `Resets.NodeZeroEachTime` | can-daemon/src/node-device-object.c:571-575 | node 0 is reported once per announcement |
| `Resets.OnlyAnnounced` | can-daemon/src/node-device-object.c:570-576 | nothing is reported that no frame announces |
| `Traces.AllOrNothing` | can-daemon/src/node-device-object.c:691-855 | over every trace the value changes only if the transaction completes; the entry's address and type never change |
| `Traces.BusyIsNoise` | can-daemon/src/node-device-object.c:695-749 | with an accepting bus a frame is busy exactly when its id is out of range, it is for another node or its command is 0x80 or above; then nothing changes and nothing is sent |
| `Traces.NoiseIsInvisible` | can-daemon/src/node-device-object.c:1031-1050 | traces that differ only in such frames, anywhere, give the same outcome, state and frames sent |
| `Traces.CrashCondition` | can-daemon/src/node-index-object.c:664-666 | a null string is read exactly for an upload segment of a string object on which no transfer was begun |
| `Traces.NoCrashAfterInitiate` | can-daemon/src/node-index-object.c:682-704 | after a transfer was begun no trace leads there |
| `Traces.SuccessWithoutValue` | can-daemon/src/node-device-object.c:843-852 | an id above 0x700 ends the call with success and changes nothing |
| `Traces.DrainAndCallAgree` | can-daemon/src/node-device-object.c:570-849 | a frame with an id above 0x700 is reported alike by drain and call, except below 0x800 for nodes 0 and 124, which only the drain reports, and from 0x800 on for nodes 1 to 123, which only the call reports |
| `Traces.LoopEnds` | can-daemon/src/node-device-object.c:1015-1053 | a loop consumes exactly the events up to the first one that does not keep it going |
| `Traces.LoopSucceeds` | can-daemon/src/node-device-object.c:1428-1442 | it succeeds exactly when some frame classifies as done or reset and everything before it keeps it going |
| `Traces.TimerIsLastRestart` | can-daemon/src/node-device-object.c:1039-1041 | ticks are measured from the last frame that restarted the timer |
| `Traces.ExpiresPastLimit` | can-daemon/src/node-device-object.c:1049-1050 | a tick expires exactly past the limit, except at one second sharp |
| `Traces.LoopKeepsLimit` | can-daemon/src/node-device-object.c:1039-1050 | over every trace a tick past the limit fails the call at once, and after any other tick it goes on |
| `Traces.LoopReports` | can-daemon/src/node-device-object.c:843-849 | a call ends with a reset exactly if its last frame announces one, and with that node |
| `Transfers.PlayIsLoop` | can-daemon/src/node-device-object.c:1015-1053 | playing a schedule against the server is the loop over the trace the client sees |
| `Transfers.OutcomeIsTransaction` | can-daemon/src/node-device-object.c:859-1061 | the outcome of a session is the client's transaction on what it sees |
| `Transfers.LateIsForeign` | can-daemon/src/node-device-object.c:742-753 | late frames are foreign traffic: the session with them ends as the one where each is an unrelated frame |
| `Transfers.LateFrames` | can-daemon/src/node-device-object.c:742-753 | whatever the request, no late frame ends the call or draws an answer, under every benign schedule, if and only if all late frames are noise for the node |
| `Writing.StoredWhole` | can-daemon/src/node-index-object.c:183 | a server that counts stores the string exactly if the declared size reaches its last segment, for ASCII exactly up to 4095 bytes; of any other it stores a proper prefix and the call still waits |
| `Writing.StringWrite` | can-daemon/src/node-device-object.c:1447-1571 | for every string, server, late noise and benign schedule the write completes exactly when the string fits and its ceil(n/7)+1 replies are delivered; the dictionary changes in the one entry, exactly when the segments the server takes are acknowledged and it learns of the end |
| `Writing.StoredExactly` | can-daemon/src/node-index-object.c:601-625 | with a server that waits for the last bit, a completed write has stored the string exactly if its length is no multiple of 7 or 0 |
| `Writing.WriteIsAtomic` | can-daemon/src/node-device-object.c:1524-1563 | for every string, with resets, heartbeats, late frames, time-outs and refused segments at any point, the dictionary is the old one or has the whole new entry, exactly by the number of replies heard before an answer was refused; and how the call ends |
| `Writing.SegmentRefused` | can-daemon/src/node-device-object.c:764-783 | when the bus refuses a segment, after any number of them, the call reports success and the server stands as after the ones before |
| `Reading.StringRead` | can-daemon/src/node-device-object.c:1414-1445 | for every text, server, late noise and benign schedule the read completes exactly when the segments it wants are delivered; its value is the stored form of the bytes taken, the old one until then |
| `Reading.ReadIsAtomic` | can-daemon/src/node-device-object.c:1010-1056 | with resets, heartbeats, late frames, time-outs and refused requests at any point the value is the old one or the whole new one, exactly by the number of replies heard before an answer was refused; a call cut short keeps the old one, and succeeds with it exactly if a boot-up or heartbeat frame or a refusal cut it |
| `Reading.RequestRefused` | can-daemon/src/node-device-object.c:764-830 | when the bus refuses the request a segment draws, the call reports success with the old value; after the initiate response it goes on waiting |
| `Reading.ReadsWhole` | can-daemon/src/node-index-object.c:664-671 | ASCII below 65536 bytes is read whole in exactly ceil(n/7) segments |
| `Reading.ReadExactly` | can-daemon/src/node-index-object.c:664-686 | a text is read whole and comes back unchanged if and only if it is plain and below 65536 bytes |
| `Reading.CutAndYetEqual` | can-daemon/src/node-index-object.c:664-686 | a text above that which is cut and whose escaped part is the whole text |
| `Reading.ReadExactlyPlain` | can-daemon/src/node-index-object.c:664-668 | below 65536 bytes the value is the server's text exactly when that is plain |
| `Reading.ReadExactlyShort` | can-daemon/src/node-index-object.c:686 | plain text is read whole exactly below 65536 bytes |
| `Reading.WriteThenRead` | can-daemon/src/node-index-object.c:674-715 | a plain string of at most 4095 bytes written by one object is what another object reads |
| `Calls.WriteString` | can-daemon/src/node-device-object.c:1447-1571 | on the objects and in any session: the result of the call and the dictionary, undisturbed exactly by fit and deliveries, and otherwise by the replies heard and by what ended the call |
| `Calls.ReadString` | can-daemon/src/node-device-object.c:1414-1445 | on the objects and in any session: the result of the call and the value, undisturbed exactly by the deliveries, and otherwise by the replies heard and by what ended the call |
| `Calls.WriteText` | can-daemon/src/node-object.c:927-955 | writing a string by id: the entry the server has under the index and subindex of the id is that string, under the conditions of `Calls.WriteString` |
| `Calls.WriteNumber` | can-daemon/src/node-object.c:927-955 | writing a number by id: the entry has exactly as many bytes as the data type, and they are the number modulo 256 to their count, if and only if the bus took the request; and what the call returns |
| `Calls.ReadNumber` | can-daemon/src/node-object.c:62-89 | reading a number by id gives the number of the server's bytes if the reply is heard, and else the old value or none by what ended the call |
| `Calls.SetOutput` | can-daemon/src/node-digital-object.c:140-162 | on the objects: setting an output is one step of the board, with its shadow, its index object and its result |
| `ExpeditedTransfers.NumberIsolated` | can-daemon/src/node-device-object.c:781-821 | after its request a transaction on a number leaves the server alone under every schedule, and keeps the value unless it succeeds |
| `ExpeditedTransfers.NumberEnds` | can-daemon/src/node-device-object.c:742-855 | under every schedule the first frame that is no noise for the node ends it, with the value the frame carries if it carries one, unless a tick fails it before |
| `ExpeditedTransfers.NumberWrite` | can-daemon/src/node-device-object.c:1503-1556 | writing a number assigns its low bytes, which are its number modulo 256 to the width, to one entry and completes with the reply |
| `ExpeditedTransfers.NumberWriteIsAtomic` | can-daemon/src/node-device-object.c:1524-1563 | cut short at any point, the entry has changed if and only if the bus took the request; and how the call ends |
| `ExpeditedTransfers.NumberRead` | can-daemon/src/node-device-object.c:781-802 | reading a number of 1 to 4 bytes gives the value of the object's type that the server's bytes stand for, and completes with the reply |
| `ExpeditedTransfers.NumberReadIsAtomic` | can-daemon/src/node-device-object.c:1010-1056 | cut short at any point, the value is the server's if the reply was heard and else the old one, with success unless a tick cut the call |
| `ExpeditedTransfers.NumberRoundTrip` | can-daemon/src/node-device-object.c:781-806 | a number written and read comes back as its word modulo 256 to the width |
| `ExpeditedTransfers.ReadBackExact` | can-daemon/src/node-index-object.c:161-253 | which values survive that, type by type, both ways |
| `LateReplies.OwnReplyExactly` | can-daemon/src/node-device-object.c:742-753 | the read or write of a number ends on the reply to its own request, under every benign schedule, if and only if all late frames are noise for the node |
| `LateReplies.LateReplyTaken` | can-daemon/src/node-device-object.c:781-806 | a late response for any address completes the read of another entry with its value; that is right only if the two numbers agree |
| `LateReplies.LateAckTaken` | can-daemon/src/node-device-object.c:815-840 | a late acknowledgement of any request completes the write of a number |
| `LateReplies.LateAckExactly` | can-daemon/src/node-index-object.c:696-711 | what one late acknowledgement makes of every string under benign schedules: the entry changes exactly if the server takes at most one segment, gets it and learns of the end; the call completes exactly for at most seven bytes |
| `LateReplies.SecondReadWrong` | can-daemon/src/node-device-object.c:1031-1050 | the reply a failed or waiting read leaves behind, under whatever schedule, is what the next read of another entry takes for its value |
| `LateReplies.AckLeftOver` | can-daemon/src/node-device-object.c:1545-1563 | the failed or waiting write of a number leaves an acknowledgement for the next call |
| `NodeObjects.NodeObject.LoadIndexesTable` | can-daemon/src/node-object.c:444-541 | table and list hold the same objects under their ids, one for each index group, in file order |
| `NodeObjects.IndexGroupsExact` | can-daemon/src/node-object.c:485-508 | exactly the groups with a hexadecimal name and both keys are taken |
| `NodeObjects.NodeObject.ChangeId` | can-daemon/src/node-object.c:611-623 | every object gets the new node id and nothing else changes |
| `NodeObjects.NodeObject.LookupIndex` | can-daemon/src/node-object.c:957-965 | what is found carries the id asked for, the address parsed from it and the current node id |
| `NodeObjects.NodeObject.GetIndexes` | can-daemon/src/node-object.c:578-596 | the listing of the ids |
| `NodeObjects.ListingIsJoin` | can-daemon/src/node-object.c:590 | the listing is separated by commas exactly when its first id has more than one character |
| `NodeObjects.NodeObject.ReadValue` | can-daemon/src/node-object.c:62-89 | the value read over the bus, or none; other entries stay as they are |
| `NodeObjects.NodeObject.WriteValue` | can-daemon/src/node-object.c:927-955 | sets and writes one entry; other entries stay as they are |
| `Panel.BitOfWithBit` | can-daemon/src/node-digital-object.c:153 | the word sent differs from the shadow in the one bit |
| `Panel.FlagsShow` | can-daemon/src/node-digital-object.c:104-138 | flag `i` is bit `i` of the word, for all sixteen |
| `Panel.SetBitSets` | can-daemon/src/node-digital-object.c:140-162 | after setting a bit the other bits are those of the shadow, or of the word read where it was unset, and the flags show them; if nothing was read nothing changes |
| `Panel.ReadingIs` | can-daemon/src/node-digital-object.c:146-149 | a number read is taken as the word of its number modulo 2^32 |
| `Panel.MirrorAlways` | can-daemon/src/node-digital-object.c:104-180 | after any calls, with reads that fail, the shadow is unset or flag `i` is its bit `i` |
| `DigitalObject.NodeDigitalObject.SetValue` | can-daemon/src/node-digital-object.c:140-162 | the outputs afterwards are those of `SetBit`: the shadow, loaded if it is unset, with one bit changed, and flag `i` is its bit `i`, whether the write is accepted or not; the index object and the result are those of the read and the write |
| `DigitalObject.NodeDigitalObject.GetOutValue` | can-daemon/src/node-digital-object.c:164-180 | the word read is the shadow and flag `i` its bit `i`, or nothing changes |
| `DigitalObject.NodeDigitalObject.GetInValue` | can-daemon/src/node-digital-object.c:220-265 | the same for the inputs |
| `OutputRegister.RegisterFollows` | can-daemon/src/node-digital-object.c:140-162 | if the bus takes every write and every load reads the register, the register is its first value overridden by the last request for each bit that reaches it, for any of the 32 bits, whatever happens to the replies |
| `OutputRegister.ShadowHoldsAll` | can-daemon/src/node-digital-object.c:140-162 | under all schedules, for requests for the 16 outputs and a first word whose high half is not all ones: one load; the shadow is that word overridden by every request, the entry by the requests up to the last one the bus took; no other entry changes |
| `RegisterLimits.LoadsRightExactly` | can-daemon/src/node-device-object.c:742-852 | under every schedule a load reads the register, or fails, exactly unless the first frame that is no noise makes another word of it: a late value of another entry, or the old word of the index object |
| `RegisterLimits.ReplyIsRight` | can-daemon/src/node-device-object.c:781-802 | the reply of the server to the load makes the register of it |
| `RegisterLimits.WrongLoad` | can-daemon/src/node-digital-object.c:141-151 | after a first load that such a frame ended the register is the word it made with one bit set, which is right exactly if that word agrees in the other bits |
| `RegisterLimits.OutputsCleared` | can-daemon/src/node-digital-object.c:141-156 | an input: one heartbeat during the first load, and setting an output clears all the others |
| `RegisterLimits.RunRightExactly` | can-daemon/src/node-digital-object.c:140-162 | over all runs and schedules the register is right exactly if the word of the first load that succeeds agrees with it in every bit no request has reached it for |
| `RegisterLimits.WriteReturns` | can-daemon/src/node-device-object.c:1447-1571 | under every schedule a write assigns the register exactly if the bus takes the request, and returns true exactly if a frame that is no noise ends it |
| `RegisterLimits.LateAckChanges` | can-daemon/src/node-device-object.c:1545-1563 | an input: the acknowledgement comes too late, the call fails, and the register has changed |
| `RegisterLimits.WordSurvives` | can-daemon/src/node-digital-object.c:146-156 | a word written to the entry and read back is cut to the bits of its data type |
| `Sentinel.DigitalRegister` | can-daemon/src/eds/Digital.eds:891-895 | with 16 bits and two bytes in the reply, the device is read at most once and the register follows all requests up to the last one the bus took, whatever its first value |
| `Sentinel.RefusedBitLost` | can-daemon/src/node-digital-object.c:141-151 | for any first value with a high half of ones and some zero bit, a run that loads twice and loses a refused request for that bit |
| `Sentinel.DistinctExactly` | can-daemon/src/node-digital-object.c:140-162 | no run loses a request if and only if the high half of the first value is not all ones, and likewise no run loads twice; the other values need a reply of four bytes |
| `Sentinel.FourByteInput` | can-daemon/src/node-digital-object.c:141-156 | an input: the reply FE FF FF FF, for which output 0 is set by a refused request and lost |

## Left out

- D-Bus objects, signals and properties, log files, the mutex and the timer object: times are
  integers in the events, reset signals a log of node numbers.
- The time a pass takes between reading a frame and restarting the timer: each pass has one time.
- The bus driver: frames come as event sequences, and writes succeed or fail as the event says.
- EDS files: a file is its sequence of groups with distinct names, parsed data type and access type.
  Keys that set `Index`, `SubIndex` or `NodeId` in a group are not modelled.
- LoadIndexesTable: is called once, on an empty list, as the constructor does; the code has no
  second call and its list would not be valid after one.
- SetValue: bits from 32 on are excluded, where the shift of the source is undefined. What GLib
  transforms a value of another type to is a parameter.
- Encoded: a double outside the range of 32 bits is truncated modulo 2^32; C leaves it undefined.
- GLib's `g_strescape`, `g_utf8_strlen`, `g_string_append_unichar` and `g_ascii_strtoull` follow their
  documentation; they are not part of this repository.
- A server of the model sends only well-formed expedited and segmented commands; the client's
  reaction to all others is in `Process`. Block transfer is not modelled.
- The server handles a request at once and its replies come in order; late frames come before them.
- The register has no other writer than the node, and an output entry with one of the unsigned types.
- The motor, analog and extended analog nodes: getters and setters over the same reads and writes.
- Scanning for nodes, which is commented out, and the fixed list of six nodes.
- The user interface under `lgdm/` and `src/`.
