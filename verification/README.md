# Verified models of the xbot firmware

Dafny models of the stateful parts of the xbot mainboard firmware, with proofs of what they promise over
every input, every interleaving and every sequence of events. `dafny verify dfyconfig.toml` checks all of it.

| module | what it models |
|---|---|
| `Upload`, `UploadRuns` | one REST connection: streaming uploads to flash, long-running actions, the websocket takeover |
| `Modbus`, `ModbusServer` | the Modbus/TCP request handler and the framing of its byte stream |
| `PacketIo` | the 25-slot packet pool, its semaphore and the IO receive loop, as interleaved atomic steps of any number of threads |
| `ServiceList`, `PacketBuffer` | the linked list of services and the byte buffer of a packet, on the heap |
| `IdEeprom`, `EepromColumns` | the XOR checksum of the board records, the reading of a record, and the errors the checksum misses, bit by bit |
| `JsonLog`, `JsonShown` | the JSON driver, the reflowed error log, and what of it is shown |
| `EventDispatch` | the main event loop interleaved with broadcasters |
| `ObjectMerge`, `Routing`, `Lookup` | posting to data objects, URI routing, array pages and GPIO lines by name |
| `Bytes` | bytes, the 32-bit `size_t`, sequence helpers |

Code that updates state in place is a class or a method with loops, and each such method is proved equal to a
transition function; the theorems are about that function. What the code cannot decide itself (does a file
open, does a write succeed, what do the register handlers answer, what does the JSON parser say) is an
arbitrary parameter. Steps of concurrent threads are values: every list of steps is a run, and a step that
is not enabled changes nothing.

## What the proofs found

Some promises hold only under a condition, which is proved exactly:

- A POST with `Content-Length: 0` opens the file and is never answered (`EmptyBodyNeverCompletes`). With a
  positive length an upload completes at the first READ where the number of body bytes, taken modulo 2^32,
  reaches the length (`UploadDelivers`). At the READ that brings the last announced byte it therefore completes
  if and only if the number of bytes in hand modulo 2^32 is still at least the length (`CompletesIffNoWrap`);
  `WrapStaysOpen` are uploads of 4294967295 bytes that have them all and stay open with a count of 512, one of
  them in READs of 512 and 1024 bytes (`WrapInput`).
- The file holds exactly the announced body if and only if the completing READ brings nothing beyond it
  (`FileIsBodyIff`): a following request in the same READ is written to the file and counted (`NextRequestWritten`).
- The Modbus server handles one frame per READ event. Complete frames stay unhandled in the buffer unless
  the sender is paced, that is, unless no final stretch of READ events completes more frames than it has
  events (`NoBacklogIffPaced`, with a concrete input in `PipelinedRequestWaits`).
- The answer to function 16 and its effect depend on the request frame alone, for every device, if and only if
  the request reads no data (fewer than 12 bytes, no registers or more than 124) or the frame holds the registers
  it announces; the byte-count field is not consulted (`FrameSuffices`). A request for one register whose
  frame ends after 12 bytes stores whatever lies behind it (`ShortWriteReadsOn`), so how the network cuts the
  stream can matter (`ChunkingMatters`); for frames that hold their data it does not (`ChunkingIrrelevant`).
- Unknown functions and oversized counts answer exception code 4, not the codes 1 to 3 of section 7 of the
  MODBUS Application Protocol Specification V1.1b3 (`UnsupportedRequest`). The model follows the code.
- The error log fits its 128-character buffer if and only if the error lies at most 114 characters into its
  line; otherwise the line is 14 characters longer than that column, up to 135 (`LogFitsIff`). The column is the
  number of bytes between the last newline and the error, modulo 121, plus one (`ErrorColumnIs`). A parse error at
  byte 115 to 121 of a source without newlines overflows the buffer (`OverflowReached`, with a source of 121 letters
  in `OverflowInput`).
- The log is printed with `%.*s`, which stops at a NUL. Every line is shown whole if and only if the source has no
  NUL (`LogShownIff`), and the error marker is shown if and only if no NUL stands before it on its line
  (`MarkShownIff`); a single rejected NUL logs one empty line (`NulHidesError`). As the end of a document a NUL
  counts as white space.
- The driver reports success for a finished document followed by blanks, and also for a source that ends before the
  document does, which it logs as an error (`ReportsSuccessIff`, with a lone brace in `UnfinishedReported`). A callback
  that fails on the byte that finishes the document is not noticed: src/json_stream.cpp:74-76 tests for the end
  first and returns true (`FailureAtEndIgnored`).
- A corruption of a record is accepted if and only if it flips an even number of bits in each of the 16 columns of
  the checksum (`UndetectedIffEven`). So every odd number of flipped bits is detected, and every burst within 16
  consecutive bits except equal changes to bytes 36 and 37, the last covered and the low checksum byte (`BurstErrors`).
- A record of zeros, as a blank memory may read, passes the checksum and is delivered instead of the default record
  (`ZeroRecordAccepted`).
- Posting the same body twice leaves the record alone. The version counter stays put if and only if the object is
  writable or the body changes nothing: read-only objects count every differing post (`PostAgain`).
- Registering a service whose next pointer is null keeps the list finite if and only if the service is not in it yet
  (`AppendEndsIffNew`).
- In a table that passes the hash check a listed GPIO name finds its own line; a name that is not listed finds
  nothing if and only if no listed name has the same hash, and otherwise the line of that name
  (`IndexMatchesNames`, with a table in `CollisionFindsOther`).
- The size check of a packet append admits exactly what fits and what makes the 32-bit sum wrap (`CheckPasses`,
  with an input in `WrapPasses`).
- Routing does not depend on the order of the table when the names are distinct and free of slashes
  (`OrderIrrelevant`); with a slash in a name it does (`OrderMatters`).

## Model

| member | source | states |
|---|---|---|
| Upload.Connection.CloseUploadedFile | mongoose/mongoose_impl.c:309-316 | closes the open file through its close function, if both exist, and clears the upload state; equals `CloseFile` |
| Upload.Connection.OnRead | mongoose/mongoose_impl.c:338-363 | one READ forwards whole 512-byte blocks, or everything once the announced length is reached (32-bit sums), then answers and closes on failure or completion; equals `UploadRead` |
| Upload.Connection.Prepare | mongoose/mongoose_impl.c:376-399 | opens the file or answers 400; on success installs the upload state, drops the headers and performs the first READ; equals `PrepUpload` |
| Upload.Connection.Answer | mongoose/mongoose_impl.c:422-437 | starts or queries an action, or upgrades to a websocket; equals `HandleMessage` |
| Upload.Connection.Deliver | mongoose/mongoose_impl.c:569-654 | every event goes to the handler installed on the connection and changes the state as `Step` says |
| UploadRuns.StepInv | mongoose/mongoose_impl.c:331-437 | every event with every answer of the environment keeps the invariant tying the connection's fields to its log |
| UploadRuns.UploadSafety | mongoose/mongoose_impl.c:309-420 | over every event run the log is legal: one open, at most one reply and one close, the close last, no write after a failed write, a reply or the close, every write 512-aligned in offset and, unless answered next, in length, and a success reply reports the number of bytes written; after CLOSE the file is closed iff its handler has a close function |
| UploadRuns.BytesConserved | mongoose/mongoose_impl.c:338-399 | over every event run, failed writes, late bytes and CLOSE included, the bytes handed to the write function followed by the buffer are the bytes received after the headers |
| UploadRuns.ProtocolMeans | mongoose/mongoose_impl.c:352-362 | what a legal log excludes, pairwise: nothing follows the close, only the close follows a reply, no write follows a failed one |
| UploadRuns.ModesStartIdle | mongoose/mongoose_impl.c:401-437 | in every run upload and action modes start only from the idle tag, an upload at most once per connection |
| UploadRuns.OpenFailureAnswered | mongoose/mongoose_impl.c:384-389 | a POST whose open fails leaves exactly a failed open and a 400 reply in the log, drains, and keeps the tag 'U' with the HTTP handler installed |
| UploadRuns.UploadStartsIff | mongoose/mongoose_impl.c:401-420 | headers change the connection iff it is idle and they are a POST to an upload or file handler |
| UploadRuns.EveryUploadRequestCounts | mongoose/mongoose_impl.c:376-420 | over runs such a request always leaves its mark: the log is the failed open and its 400 for ever, or begins with the opened file and its close function for ever |
| UploadRuns.DrainsIffAnswered | mongoose/mongoose_impl.c:352-389 | in every run the connection drains iff a reply to an upload has been sent |
| UploadRuns.RequestAnswered | mongoose/mongoose_impl.c:422-437 | what is started, answered and tagged for each body length and each answer of the check function |
| UploadRuns.ActionAnsweredWhenDone | mongoose/mongoose_impl.c:590-596 | a running action is answered at exactly the first poll that finds it finished, after any number that find it running, and the connection is idle again |
| UploadRuns.UploadAfterRequest | mongoose/mongoose_impl.c:569-633 | behind an answered request on the same connection an upload finds its headers and body in the buffer |
| UploadRuns.ActionsAnswered | mongoose/mongoose_impl.c:588-596 | in every run what follows a started action is its answer, every completion answer stands right behind a start, and one is owed exactly while the tag is 'A'; queries are answered separately |
| UploadRuns.ReadWaits | mongoose/mongoose_impl.c:340-350 | while the 32-bit count of body bytes is short of the announced length a READ leaves everything written or buffered and less than 512 bytes buffered |
| UploadRuns.ReadCompletes | mongoose/mongoose_impl.c:356-362 | with the announced length counted a READ writes everything, answers 200 with the count of bytes and closes the file if there is a close function |
| UploadRuns.UploadDelivers | mongoose/mongoose_impl.c:331-399 | for every chunking with successful writes and any number of bytes, the upload stays open with written plus buffered equal to the bytes sent until the first READ whose 32-bit count reaches the announced length, and completes exactly there with all bytes in the file and their count in the reply; late bytes are not written |
| UploadRuns.CompletesIffNoWrap | mongoose/mongoose_impl.c:343-356 | at the READ that brings the last announced byte the upload completes iff the number of bytes in hand modulo 2^32 is at least the length, and stays open otherwise |
| UploadRuns.WrapStaysOpen | mongoose/mongoose_impl.c:343-348 | for every chunking, an upload of 4294967295 bytes with 4294966784 sent whose last READ of 1024 wraps the sum: everything has arrived, the upload stays open, the count is 512 |
| UploadRuns.WrapInput | mongoose/mongoose_impl.c:343-348 | the same from 8388607 READs of 512 bytes and one of 1024 |
| UploadRuns.FileIsBodyIff | mongoose/mongoose_impl.c:343-348 | the file holds exactly the first announced bytes of what was sent iff the completing READ brought nothing beyond them |
| UploadRuns.NextRequestWritten | mongoose/mongoose_impl.c:343-358 | a request that follows the body in the same READ is written to the file and counted in the reply |
| UploadRuns.ExactBody | mongoose/mongoose_impl.c:331-399 | a body of exactly the announced length is in the file unchanged, with one 200 reply that reports its length and one close, however it is cut |
| UploadRuns.EmptyBodyNeverCompletes | mongoose/mongoose_impl.c:339-340 | with an announced length of zero the upload stays open and unanswered whatever arrives |
| Modbus.WriteRegisters | mongoose/mongoose_impl.c:803-817 | the write loop stops at the first refusal and equals `WriteMany`; zero registers is a failure |
| Modbus.ReadRegisters | mongoose/mongoose_impl.c:818-832 | the read loop fills the response from position 9 and equals `ReadMany` |
| Modbus.FillResponse | mongoose/mongoose_impl.c:790-832 | dispatch on the function code with the capacity checks; body and device equal `Execute` |
| Modbus.Finish | mongoose/mongoose_impl.c:833-841 | failure replaces the body by exception code 4, then the length field is set |
| Modbus.HandlePdu | mongoose/mongoose_impl.c:778-843 | reply and device state equal `Respond`, for any register handlers and any memory contents |
| Modbus.ReplyShape | mongoose/mongoose_impl.c:790-841 | a request is answered iff it has 12 bytes; every reply has 9 to 259 bytes, keeps transaction, protocol and unit bytes, has a length field equal to its size minus 6, and is either a success with the request's function or exception code 4 |
| Modbus.RespondAgree | mongoose/mongoose_impl.c:803-812 | the answer to a request that reads no data, or whose frame holds its data, does not depend on the memory behind the frame |
| Modbus.FrameSuffices | mongoose/mongoose_impl.c:778-843 | for every device the frame alone decides answer and effect iff the frame holds the data its function reads; the failing direction by a device that records its writes |
| Modbus.ShortWriteReadsOn | mongoose/mongoose_impl.c:803-812 | a 12-byte write request for one register stores the word found at positions 13 and 14, behind the frame |
| Modbus.WriteManyStores | mongoose/mongoose_impl.c:808-812 | over a register bank exactly the registers before the first refused one are written, addresses taken modulo 65536; all others keep their value |
| Modbus.ReadManyReturns | mongoose/mongoose_impl.c:823-827 | reading a range returns its registers in order and changes nothing |
| Modbus.WriteThenRead | mongoose/mongoose_impl.c:803-832 | writing 1 to 124 registers and reading the range back returns the bytes written, also across the address wrap |
| Modbus.RegisterAfterWrite | mongoose/mongoose_impl.c:803-817 | after a granted write any register holds the big-endian word sent for its distance from the start modulo 65536, or its old value |
| Modbus.RegisterShown | mongoose/mongoose_impl.c:818-832 | a read shows each register of the range, high byte first, from position 9 on |
| Modbus.RefusedRead | mongoose/mongoose_impl.c:818-837 | a read that meets a missing register changes nothing and answers 131 or 132 with code 4 |
| Modbus.ZeroCount | mongoose/mongoose_impl.c:803-837 | a request for no registers never reaches the device and answers exception code 4 |
| Modbus.SingleWrite | mongoose/mongoose_impl.c:795-802 | function 6 stores its third word under its second and echoes bytes 8 to 11, or changes nothing and answers 134 with code 4 |
| Modbus.SingleWriteThenRead | mongoose/mongoose_impl.c:795-832 | a register written with function 6 is read back with the value written |
| Modbus.GrantedWrite | mongoose/mongoose_impl.c:803-817 | a granted write of 1 to 124 registers stores every word and echoes bytes 8 to 11 of the request |
| Modbus.RefusedWrite | mongoose/mongoose_impl.c:808-837 | a refused register makes the request fail with exactly the registers before it written |
| ModbusServer.Connection.Read | mongoose/mongoose_impl.c:845-857 | one READ event handles at most one frame from the front of the buffer; equals `OnRead` |
| ModbusServer.FramesExtend | mongoose/mongoose_impl.c:849-854 | further bytes never change the frames already complete |
| ModbusServer.FramesOfReplies | mongoose/mongoose_impl.c:849-854 | well-framed messages sent back to back frame into exactly themselves |
| ModbusServer.HandledInOrder | mongoose/mongoose_impl.c:845-857 | for every chunking, handled frames followed by the buffer are the bytes received, and the handled frames are a prefix of the framing of the whole stream |
| ModbusServer.RepliesReframe | mongoose/mongoose_impl.c:838-854 | in every run the bytes sent back frame into exactly the replies, one per handled frame of at least 12 bytes |
| ModbusServer.RepliesInTurn | mongoose/mongoose_impl.c:790-854 | in every run, whatever the frames hold, the k-th reply carries transaction, protocol, unit and function of the k-th handled frame of at least 12 bytes |
| ModbusServer.AnswersFollowFrames | mongoose/mongoose_impl.c:845-857 | in every run replies and device are those of answering the handled frames one by one, when each handled frame holds its data |
| ModbusServer.ChunkingIrrelevant | mongoose/mongoose_impl.c:845-857 | two chunkings of one stream that handled equally many frames, each holding its data, end in the same state with the same replies |
| ModbusServer.ChunkingMatters | mongoose/mongoose_impl.c:803-857 | a frame without its data: two chunkings of one stream handle the same frame and store different words, the following bytes of the stream or the memory behind the buffer |
| ModbusServer.HandledCount | mongoose/mongoose_impl.c:849-855 | the number of handled frames is the least, over all moments, of the frames complete then plus the READ events since |
| ModbusServer.NoBacklogIffPaced | mongoose/mongoose_impl.c:849-855 | no complete frame is left in the buffer iff no final stretch of READ events completes more frames than it has events |
| ModbusServer.PipelinedRequestWaits | mongoose/mongoose_impl.c:852-855 | two requests in one segment: the first is handled, the second stays buffered |
| ModbusServer.ZeroLengthWaits | mongoose/mongoose_impl.c:845-857 | a frame of length zero waits for a seventh byte and is then taken off the buffer unanswered |
| PacketIo.StepPool | portable/xbot/packet.cpp:18-38 | wait, pool allocation, pool free and signal by any thread, and all other steps, keep the pool invariant |
| PacketIo.PoolNeverRunsDry | portable/xbot/packet.cpp:13-38 | in every interleaving free slots are the semaphore count plus threads between wait and allocation plus threads between free and signal; the allocation after the wait always finds a slot; threads sleep only when every free slot is promised; free and held slots are disjoint and total 25 |
| PacketIo.StepsTakeEffect | portable/xbot/packet.cpp:18-38 | in every run each operation a thread gets to perform has the effect the kernel promises, and a signal wakes the thread that waits longest |
| PacketIo.WaiterServed | portable/xbot/packet.cpp:18-38 | no thread is passed over: the thread at position i of the semaphore queue is past its wait after i + 1 signals, in every continuation |
| PacketIo.EveryPacketSettled | portable/xbot/Io.cpp:34-79 | over every run each received packet is freed once or handed to one service, the first in registration order with its id that was not stopped when visited; only packets of header plus payload size are handed on, and those are freed only after every service registered at their reception was visited and did not take them; the only open packet is the one the IO thread holds |
| PacketIo.EveryStepAccounted | portable/xbot/Io.cpp:34-79 | in every run a received packet belongs to the IO thread, a freed one to nobody, and a handed one to the thread of the service that matched; the walk looks at the services as they are |
| PacketIo.SettledInTime | portable/xbot/Io.cpp:34-79 | from any reachable state with a packet in hand every continuation with enough turns of the IO thread, counting the registrations in it, settles the packet |
| PacketIo.ListIsRegistrations | portable/xbot/Io.cpp:81-88 | in every run the list holds exactly the registered services in the order of registration |
| PacketIo.WalkEnds | portable/xbot/Io.cpp:62-76 | from any reachable walking state every continuation with as many walk steps as services were left, plus one, plus the registrations in it, leaves the walk |
| ServiceList.Registry.Register | portable/xbot/Io.cpp:81-88 | appends the service whatever it points to; a new one extends the list in registration order, which stays finite and acyclic iff the service's next pointer is null; one that is listed already is accepted and closes a cycle |
| ServiceList.Registry.Dispatch | portable/xbot/Io.cpp:62-76 | delivers to the first running service with the id and to no other, iff there is one |
| ServiceList.AppendEndsIffNew | portable/xbot/Io.cpp:81-88 | after the append a walk of the list ends iff the service was not in it |
| PacketBuffer.Packet.Append | portable/xbot/packet.cpp:40-49 | all data is appended iff it fits, otherwise nothing changes; the copy overruns the buffer iff the 32-bit sum of the sizes wraps |
| PacketBuffer.CheckPasses | portable/xbot/packet.cpp:43 | the size check passes iff the data fits or the sum wraps |
| PacketBuffer.WrapPasses | portable/xbot/packet.cpp:43 | with one byte used a size of 0xFFFFFFFF passes the check |
| PacketBuffer.Packet.Data | portable/xbot/packet.cpp:51-56 | returns exactly the bytes appended |
| IdEeprom.ComputeChecksum | src/id_eeprom.c:13-23 | the loop computes `Checksum` of the bytes |
| IdEeprom.ChecksumIsWordSum | src/id_eeprom.c:13-23 | for every length the sum is the XOR of the little-endian 16-bit words |
| IdEeprom.ChecksumLinear | src/id_eeprom.c:13-23 | the sum of a XOR is the XOR of the sums |
| IdEeprom.UndetectedIff | src/id_eeprom.c:62-66 | a corruption of a good record is accepted iff its error pattern has a zero syndrome |
| IdEeprom.AdjacentErrors | src/id_eeprom.c:62-66 | a change confined to two adjacent bytes is accepted iff the covered length is odd and it changes the last covered byte and the low checksum byte alike |
| IdEeprom.OddFlips | src/id_eeprom.c:62-66 | an odd number of flipped bits anywhere in the record is never accepted |
| IdEeprom.GetBoardInfo | src/id_eeprom.c:53-69 | the caller gets the transferred record iff the transfer succeeded and the checksum matches, else the default record; the result reports the transfer only |
| IdEeprom.RecordIntegrity | src/id_eeprom.c:53-69 | a sealed record is read back unchanged, and after any odd number of bit flips the default record is delivered |
| IdEeprom.FailedTransfer | src/id_eeprom.c:62-66 | a failed transfer delivers zeros with the text N/A at offset 1, whatever was transferred |
| IdEeprom.ZeroRecordAccepted | src/id_eeprom.c:62-66 | a record of zeros passes the check and is delivered as it is |
| IdEeprom.AdjacentRecordErrors | src/id_eeprom.c:71-88 | for the 39-byte records, adjacent errors deliver the default record except equal changes to bytes 36 and 37 |
| EepromColumns.SyndromeColumn | src/id_eeprom.c:13-23 | bit c of the recomputed sum XOR the stored one is set iff an odd number of bits of column c is flipped, bit p of the covered bytes standing in column p modulo 16 |
| EepromColumns.UndetectedIffEven | src/id_eeprom.c:62-66 | a corruption of a good record is accepted iff every column has an even number of flips |
| EepromColumns.BurstErrors | src/id_eeprom.c:62-66 | a burst within any 16 consecutive bits is accepted iff the covered length is odd and it changes the last covered byte and the low checksum byte alike and nothing else |
| EepromColumns.BurstRecordErrors | src/id_eeprom.c:53-88 | for the 39-byte records, a burst delivers the default record except equal changes to bytes 36 and 37 |
| JsonLog.OnlyWhitespaceRemaining | src/json_stream.cpp:3-10 | consumes blanks up to the end, or up to and including the first other byte; true iff the rest holds only spaces, tabs, CR, LF and NUL |
| JsonLog.Fill | src/json_stream.cpp:29-51 | what one byte and the markers add to the line buffer, and when the line is split |
| JsonLog.LogErrorPosition | src/json_stream.cpp:22-57 | shows of each line of `Logged`, for the source and the position at entry, the part before the first NUL |
| JsonLog.ProcessJson | src/json_stream.cpp:66-94 | follows the driver's tests in order; its result satisfies `Outcome`, and it logs with the position after the last byte consumed |
| JsonLog.ReportsSuccessIff | src/json_stream.cpp:66-94 | success iff the first part that stops the parser is a finished document with only spaces, tabs, CR, LF and NUL behind it, or no part stops it; success with a log iff no part stops it; silence iff finished |
| JsonLog.TrailingByte | src/json_stream.cpp:3-10 | behind an empty object a newline and a NUL are accepted in silence, a letter is an error |
| JsonLog.UnfinishedReported | src/json_stream.cpp:90-93 | a lone opening brace is logged and reported as success |
| JsonLog.LogIsComplete | src/json_stream.cpp:22-57 | the lines composed for the log, without split markers, are the source without newlines, with one error marker after the last byte consumed |
| JsonLog.LogBreaksAtNewline | src/json_stream.cpp:52-55 | the log of a text is the log up to a newline followed by the log of the rest |
| JsonLog.LogFitsIff | src/json_stream.cpp:26-51 | lines are at most 135 long, at most 128 without the error marker, the whole log fits 128 iff the error column is at most 114, and otherwise its longest line is that column plus 14; split markers stand only at line ends |
| JsonLog.OverflowReached | src/json_stream.cpp:26-51 | a parse error at byte 115 to 121 of a source without newlines so far is logged with a line of that many bytes plus 14, past the end of the buffer |
| JsonLog.OverflowInput | src/json_stream.cpp:26-51 | 121 letters rejected at the last one: the log line takes 135 characters |
| JsonShown.LogShownIff | src/json_stream.cpp:52-54 | every composed line is shown whole iff the source has no NUL |
| JsonShown.MarkShownIff | src/json_stream.cpp:34-54 | the error marker is shown iff no NUL stands among the bytes before it on its line, the bytes since the last newline modulo 121 and the last byte consumed |
| JsonShown.NulHidesError | src/json_stream.cpp:52-54 | a single rejected NUL is logged as one empty line without the marker |
| JsonShown.ErrorTextShown | src/json_stream.cpp:29-54 | a line of the log begins with the source of the error's line up to the last byte consumed, followed by the text <ERROR>, unless a NUL is in the way |
| JsonShown.PlainLog | src/json_stream.cpp:43-55 | a source without newlines, NULs and error is shown in pieces of 121 characters, each followed by the text <SPLIT>, and a last shorter one |
| JsonShown.ErrorColumnIs | src/json_stream.cpp:29-55 | the error column is the number of bytes since the last newline modulo 121, plus one unless the last byte is a newline |
| JsonShown.LogFitsByColumn | src/json_stream.cpp:26-51 | the log fits its buffer iff that number is at most 114 |
| EventDispatch.StepInv | src/main.cpp:137-155 | every broadcast and every step of the loop keeps the invariant: unread flags imply a pending wake-up or a loop about to fetch |
| EventDispatch.NoFlagLost | src/main.cpp:137-155 | in every interleaving a flag broadcast after registration is unread or was fetched later, and was fetched if the loop sleeps with nothing pending |
| EventDispatch.FetchIsExact | src/main.cpp:141-154 | every fetch returns exactly the flags broadcast since the fetch before it, and the services are called for exactly those flags, in order, before the next fetch |
| EventDispatch.FlagServed | src/main.cpp:141-154 | in every interleaving a flag broadcast after registration is fetched and its services are called within six steps of the loop |
| EventDispatch.WakesIffBroadcast | src/main.cpp:141-143 | a waiting loop wakes at its next step iff something was broadcast since its last wake-up, and sleeps on unchanged otherwise |
| ObjectMerge.Server.HandleObject | mongoose/mongoose_impl.c:463-498 | record, version and reply after a POST equal `Post` |
| ObjectMerge.PostChangesOnlyNamed | mongoose/mongoose_impl.c:467-495 | with disjoint attributes each attribute becomes what the body says and keeps its bytes otherwise, nothing else changes, and the version grows by one iff the record changes |
| ObjectMerge.PostPerKind | mongoose/mongoose_impl.c:471-486 | per kind, from the body alone: four bytes for an int, one for a bool, eight for a double, the cut text for a string, nothing for any other kind or a value of another type |
| ObjectMerge.WrittenByLast | mongoose/mongoose_impl.c:470-487 | in every table, overlapping attributes included, the last attribute reaching a byte decides it |
| ObjectMerge.PostAgain | src/api.cpp:57-63 | posting again leaves the record unchanged, and the version iff the object is writable or the body changes nothing |
| ObjectMerge.PostManyTimes | mongoose/mongoose_impl.c:488-491 | after any number of equal posts a writable object has counted one change at most, a read-only one every differing post |
| Routing.GetApiHandler | mongoose/mongoose_impl.c:166-180 | returns the first table entry whose name is a prefix of the path ending at its end or at a slash; equals `First` |
| Routing.FirstWins | mongoose/mongoose_impl.c:168-178 | the scan returns a matching entry when no entry before it matches |
| Routing.FindHandler | mongoose/mongoose_impl.c:182-185 | scans for the path behind /api/; equals `Find` |
| Routing.FindIsAddressed | mongoose/mongoose_impl.c:160-185 | for distinct slash-free names an entry is found iff its name is the first path segment after /api/ |
| Routing.OtherUris | mongoose/mongoose_impl.c:182-185 | a URI that does not begin with /api/ and one more character finds nothing in any table |
| Routing.MatchIsSegment | mongoose/mongoose_impl.c:174-176 | for a slash-free name the prefix test holds iff the name is the first path segment |
| Routing.OrderIrrelevant | mongoose/mongoose_impl.c:160-180 | two tables with the same distinct slash-free names find the same handler for every URI, whatever their order |
| Routing.OrderMatters | mongoose/mongoose_impl.c:168-178 | with a slash in a name two orders of one table find different handlers |
| Lookup.PrintArray | mongoose/mongoose_impl.c:500-513 | the 64-bit loop shows the at most twenty indices from start below size, in order, without wrapping |
| Lookup.PagesCover | mongoose/mongoose_impl.c:515-525 | starts 0, 20, 40, ... show every index once and in order |
| Lookup.HashesUnique | boards/XCORE/board_utils.cpp:126-138 | accepts exactly the tables with pairwise distinct hashes |
| Lookup.GetIoLineByName | boards/XCORE/board_utils.cpp:140-148 | returns the first line with the hash of the name, none only if there is none; equals `Scan` |
| Lookup.ScanIsFirst | boards/XCORE/board_utils.cpp:140-148 | among lines with the same hash the first is found |
| Lookup.IndexMatchesNames | boards/XCORE/board_utils.cpp:126-148 | in a table with distinct hashes a listed name finds its own line, and an unlisted name finds none iff no listed name has its hash |
| Lookup.CollisionFindsOther | boards/XCORE/board_utils.cpp:140-148 | an unlisted name with the hash of a listed one gets that one's line |

## Left out

- Threads and the event loop (`allocatePacket`, `freePacket`, `runIo`, `DispatchEvents`) are atomic steps on values, not methods on a heap: interleaving is the point, update in place is not captured there.
- Websocket timers overwrite all of `c->data`; the model lets them change the tag byte, the only byte read afterwards.
- The overlay of the upload and action records in `c->data` is modelled by separate fields; every mode change clears its record first.
- `receivePacket` is assumed to return a non-null packet owned by the IO thread; a service is assumed to free only packets it owns, and to be registered once.
- ServiceList.Registry.Register: two registrars at once are not modelled, nor a registration on a list that is a cycle already, which never returns; the code has no lock.
- PacketBuffer.Packet.Append: reports an overrun and stops; what the copy then does to memory outside the buffer is not modelled.
- Object getters that change by themselves between two readings (IMU, power state): the model reads a stored record.
- Upload file names, HTTP parsing, JSON parsing and printing: library code, represented by its answers.
- The actual CRC-16 function and GPIO table, board pins and configuration headers: finite constants.
- Login, SNTP, MQTT, captive portal, websocket sending: disabled or resting on library code.
- Heartbeat and status LED (src/heartbeat.c, src/status_led.c): timer callbacks that set and clear pins by a blink state and start the timer again.
- Boot service discovery (src/boot_service_discovery.cpp): a thread that answers the datagram DISCOVER_REQUEST with a fixed text and resets the board on RESET.
- Mutexes and queues (portable/xbot/mutex.cpp, portable/xbot/queue.cpp): each function calls one kernel function.
- MAC address and bootloader record reads: plain transfers without a check.
