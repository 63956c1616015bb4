# Verification of the rocket RPC framework

This project models the hard core of the rocket RPC framework and proves what its parts promise:

- **Wire format and buffer.** `TcpBuffer` is a growable byte buffer with a read and a write index that compacts itself.
  `TinyPBCoder` frames messages (start byte, big-endian length, fields, checksum, end byte), writes the frames into
  such a buffer, and scans a buffer for frames. Modules `Bytes`, `Framing`, `TcpBuffers`, `TinyPB`, `TinyPBCoder`,
  `Streaming`.
- **Connection.** The read loop, dispatch of replies to callbacks by message id, pushed messages and the out-buffer.
  Modules `ReadPath`, `Correlation`, `TcpConnections`.
- **Dispatcher.** From a request to the closure that its service may run at any time, and from there to the reply. Module
  `RpcDispatchers`.
- **Timer.** A multimap of mutable events ordered by arrive time, behind a one-shot timerfd, and how several threads arm
  it. Modules `Timers`, `Arming`.
- **RPC completion.** What a controller and its closure see of connect results, responses and timeouts in any order.
  Module `RpcChannels`.
- **Event loop.** Rounds of the task queue, and the registered descriptors against the kernel's interest set. Module
  `EventLoops`.
- **Message ids.** The 20-digit decimal counter and its seeding. Module `MsgIds`.
- **Asynchronous log.** Front buffer, queue of batches, writer with file rotation. Module `AsyncLogs`.

Every modelled object of the source is a class whose methods are proved against pure specification functions; the main results
are lemmas about those functions, or invariants that the methods keep. `Valid()` predicates hold in every state that the
methods reach, except where a contract says when they are lost (`TcpBuffer.MoveReadIndex` and `MoveWriteIndex`).

## Reading guide

Where the source's behaviour is undefined (reads or copies outside an array, int overflow, a string of negative length)
the specification of `decode` does not exclude the input: `TinyPB.Parse` has the outcome `Undefined`,
`TinyPBCoder.Decoded` carries a verdict `Faulted`. A call of `decode` need not come to an end: `Turns(v, n)` is what its
first n iterations do, and the methods follow a call for a given number of iterations. `DecodeAll` follows it for as long
as each iteration leaves fewer unread bytes than there were before, and has the verdict `GoesOn` when one does not.

Facts about the code, as opposed to what its comments and diagrams intend, that decide which theorems are true:

- The body length adds the length of err_info instead of subtracting it. `RoundTripIff` shows that a message survives
  the round trip exactly when its err_info is empty, `ErrorFrame` what comes out otherwise, and
  `CorrectedRoundTripIff` that with the sign corrected every NUL-free err_info survives.
- `moveReadIndex` and `moveWriteIndex` refuse to reach the capacity. So a frame that ends at the capacity is pushed again
  for ever (`StallsIff`, `CapacityRepeats`; `RunDelivers` shows that the in-buffer of a connection never gets there), a read
  that fills the in-buffer is lost (`ReadLoopKeepsLast`,
  `ReadLoopExactIff`), and since the in-buffer therefore never grows, frames as long as its capacity, 128 bytes for the
  connections of servers and clients, never arrive (`LargeFramesNeverArrive`).
- `moveReadIndex` counts from the read index and not from the start of the frame, so garbage in front of a frame is never
  removed; `DecodeBehindGarbage` shows that the frames are decoded all the same.
- The scan reads a length field even where it lies behind the write index. Cutting a stream into chunks is
  therefore harmless exactly when the scan finds nothing in the unfinished frames (`StreamingExactIff`).
  `CutLengthStalls` gives inputs for which it fails: after a small frame in a fresh 128-byte buffer, followed by the first
  two bytes of the next one, the call of `decode` never returns. `DecodeTerminates` shows that it ends when the declared
  lengths are positive and the write index is below the capacity.
- `onWrite` never takes anything out of the out-buffer, although rocket/UML/TCP/tcp_write_sequence.puml:38 says that sent
  data is removed. Each write sends every frame ever encoded; `EndToEnd` shows that a client tolerates it, and
  `RequestsArriveAgain` that a server does not: it executes requests again.
- A failed serialisation is the only case in which a reply carries an err_info, which makes the client take too many bytes for
  the body: such a reply needs 43 free bytes behind it (`ErrorReplyNeedsRoom`).
- The dispatcher's error returns send no reply, so a request that fails there leaves the client's callback waiting
  (`RepliesMatchCalls`, `CallbacksRunForAnswers`).
- `onTimer` collects the callbacks of all due events before it runs the first one, so deleting an event in a callback comes
  too late for one that is due at the same time (`DeletedByCallbackRuns`).
- `resetArriveTime` sets the timerfd outside the lock, from a copy of the map that may be out of date by then
  (`OvertakenIsLate`).
- The writer of the log leaves after the first batch that it finds the stop flag with, whatever is still queued
  (`StopLosesIff`).
- `SetError` and `StartCancel` mark the controller as finished, so `callBack` then skips the closure: the closure runs
  for a success only (`CompletionProtocol`).
- A call on a channel that has not been initialised sets its error code, and then the report of the error dereferences
  the channel's null controller (`CompletionProtocol`).

## Model

| member | source | states |
|---|---|---|
| Bytes.NetRoundTrip | rocket/rocket/common/util.cpp:32-38 | the four bytes of any int32, negative ones included, are read back as the same number wherever they lie in a buffer |
| Bytes.NetRoundTripBack | rocket/rocket/common/util.cpp:32-38 | no two byte patterns stand for the same number |
| Bytes.NetIsBigEndian | rocket/rocket/common/util.cpp:32-38 | the bytes are in network order, most significant first, two's complement |
| TcpBuffers.WriteAppends | rocket/rocket/net/TCP/tcp_buffer.cpp:27-35 | a write appends its bytes to the unread ones and loses nothing, also when the buffer grows and moves |
| TcpBuffers.MoveReadDrops | rocket/rocket/net/TCP/tcp_buffer.cpp:81-91 | moving the read index drops exactly the bytes moved over, or nothing at all when the capacity would be reached |
| TcpBuffers.FillAppends | rocket/rocket/net/TCP/tcp_buffer.cpp:93-103 | bytes put behind the write index become readable by moveWriteIndex, unless they fill the storage to the end |
| TcpBuffers.ReadOutSplits | rocket/rocket/net/TCP/tcp_buffer.cpp:37-50 | a read hands out the first unread bytes and leaves the others, through compaction |
| TcpBuffers.AdjustKeepsReadable | rocket/rocket/net/TCP/tcp_buffer.cpp:65-79 | compaction keeps the unread bytes and the index order |
| TcpBuffers.AdjustExactly | rocket/rocket/net/TCP/tcp_buffer.cpp:65-79 | compaction happens exactly from a third of the storage on, and where every byte is afterwards |
| TcpBuffers.ResizeExactly | rocket/rocket/net/TCP/tcp_buffer.cpp:52-63 | every byte after a resize: the unread bytes that fit, then zeros |
| TcpBuffers.MoveReadExactly | rocket/rocket/net/TCP/tcp_buffer.cpp:81-91 | any move of the read index, back ones included: refused outside the storage, else reading starts at the new index |
| TcpBuffers.MoveWriteExactly | rocket/rocket/net/TCP/tcp_buffer.cpp:93-103 | any move of the write index that stays behind the read index: refused at the capacity, else reading ends at the new index |
| TcpBuffers.ResizeKeepsReadableIff | rocket/rocket/net/TCP/tcp_buffer.cpp:52-63 | a resize keeps the unread bytes exactly when they fit the new size |
| TcpBuffers.RunIsFifo | rocket/rocket/net/TCP/tcp_buffer.cpp:27-103 | over every run of operations the indices stay in order, and bytes handed out followed by readable bytes are the bytes accepted |
| TcpBuffers.TcpBuffer.constructor | rocket/rocket/net/TCP/tcp_buffer.cpp:10-13 | an empty buffer of the given capacity, filled with zeros |
| TcpBuffers.TcpBuffer.WriteToBuffer | rocket/rocket/net/TCP/tcp_buffer.cpp:27-35 | the readable bytes become the old ones followed by the new ones, inside the storage, which grows to 3 * (size + write index) / 2 exactly when there is no room |
| TcpBuffers.TcpBuffer.ReadFromBuffer | rocket/rocket/net/TCP/tcp_buffer.cpp:37-50 | the result is as many of the readable bytes as asked for, or all; result followed by what stays readable is what was readable; the out-parameter is untouched when there is nothing |
| TcpBuffers.TcpBuffer.ResizeBuffer | rocket/rocket/net/TCP/tcp_buffer.cpp:52-63 | new storage starting with the unread bytes that fit |
| TcpBuffers.TcpBuffer.AdjustBuffer | rocket/rocket/net/TCP/tcp_buffer.cpp:65-79 | the overlapping move in place computes the compacted buffer |
| TcpBuffers.TcpBuffer.MoveReadIndex | rocket/rocket/net/TCP/tcp_buffer.cpp:81-91 | the new state, and the exact condition under which the indices stay in order |
| TcpBuffers.TcpBuffer.MoveWriteIndex | rocket/rocket/net/TCP/tcp_buffer.cpp:93-103 | the new state, and the exact condition under which the indices stay in order |
| TinyPB.TinyPBProtocol.SetMethodName | rocket/rocket/net/coder/tinyPB_protocol.h:29-32 | also overwrites the length field, and nothing else |
| TinyPB.TinyPBProtocol.SetErrInfo | rocket/rocket/net/coder/tinyPB_protocol.h:41-44 | also overwrites the length field, and nothing else |
| TinyPB.EncodedIsStable | rocket/rocket/net/coder/tinyPB_coder.cpp:172-248 | encoding a message object a second time gives the same frame and changes nothing more |
| TinyPB.FrameConstants | rocket/rocket/net/coder/tinyPB_coder.cpp:172-248 | start byte, end byte, the checksum 1 in network order, and the id "114514" of a message that has none |
| TinyPB.ParseHeaderOfFrame | rocket/rocket/net/coder/tinyPB_coder.cpp:83-153 | the decoder's index chain finds every header field of a frame, whatever surrounds the frame |
| TinyPB.ParseFrameOfFrame | rocket/rocket/net/coder/tinyPB_coder.cpp:77-167 | exactly what the decoder makes of any frame, for any err_info: text up to the first NUL, and an overlong body |
| TinyPB.RoundTrip | rocket/rocket/net/coder/tinyPB_coder.cpp:77-168 | a message without err_info comes back with id, method, error code, body and length fields ("114514" for an empty id) |
| TinyPB.RoundTripIff | rocket/rocket/net/coder/tinyPB_coder.cpp:77-168 | the round trip holds if and only if err_info is empty |
| TinyPB.ErrorFrame | rocket/rocket/net/coder/tinyPB_coder.cpp:144-161 | for NUL-free err_info all fields but the body survive, and the body is the true one and the next 2 * length bytes |
| TinyPB.CorrectedRoundTripIff | rocket/rocket/net/coder/tinyPB_coder.cpp:156-158 | with the sign of the err_info length corrected the round trip holds if and only if err_info has no NUL |
| TinyPB.ParsedIsLaidOut | rocket/rocket/net/coder/tinyPB_coder.cpp:83-167 | conversely, any message parsed from any bytes has its fields laid out in the buffer as a frame has them |
| TinyPB.DroppedIff | rocket/rocket/net/coder/tinyPB_coder.cpp:83-142 | exactly when a frame is skipped: one of the four numbers lies at or behind the end byte and everything before could be read |
| TinyPBCoder.EncodeTinyPB | rocket/rocket/net/coder/tinyPB_coder.cpp:172-248 | the array filled at the moving write position is the frame; the object gets its id, lengths and success flag |
| TinyPBCoder.Encode | rocket/rocket/net/coder/tinyPB_coder.cpp:16-30 | the frames of all messages are appended to the readable bytes in order, also when an object occurs twice |
| TinyPBCoder.WriteFramesAppends | rocket/rocket/net/coder/tinyPB_coder.cpp:16-30 | the buffer's unread bytes become the old ones followed by the concatenated frames |
| TinyPBCoder.FindFrame | rocket/rocket/net/coder/tinyPB_coder.cpp:42-75 | the scanning loop computes the scan |
| TinyPBCoder.TestPassesIff | rocket/rocket/net/coder/tinyPB_coder.cpp:50-71 | exactly when a position passes the start, length and end test |
| TinyPBCoder.ScanIsFirst | rocket/rocket/net/coder/tinyPB_coder.cpp:50-71 | the scan stops at the first position whose test does not fail |
| TinyPBCoder.ScanFindsNothingIff | rocket/rocket/net/coder/tinyPB_coder.cpp:50-75 | the scan finds nothing if and only if every position fails the start, length and end test |
| TinyPBCoder.DecodeAll | rocket/rocket/net/coder/tinyPB_coder.cpp:32-170 | while a call makes progress unread bytes never grow, and a call that returns leaves a buffer in which the scan finds nothing |
| TinyPBCoder.DecodeAllIsTurns | rocket/rocket/net/coder/tinyPB_coder.cpp:32-170 | the part of a call in which every iteration makes progress is what its first iterations do |
| TinyPBCoder.EndedTurns | rocket/rocket/net/coder/tinyPB_coder.cpp:32-170 | a call that ends making progress has ended after at most one iteration per unread byte and one more |
| TinyPBCoder.RepeatedForever | rocket/rocket/net/coder/tinyPB_coder.cpp:35-168 | an iteration that changes nothing is repeated for ever, and its output pushed again each time |
| TinyPBCoder.ParseMessage | rocket/rocket/net/coder/tinyPB_coder.cpp:79-167 | the object built field by field holds the parsed message, or the frame is dropped, or the behaviour is undefined |
| TinyPBCoder.Decode | rocket/rocket/net/coder/tinyPB_coder.cpp:32-170 | the loop over the mutable buffer, parsing a snapshot after the buffer moved underneath it, has after any number of iterations the outputs and the buffer that the specification gives for that many, progress or not |
| Streaming.StallsIff | rocket/rocket/net/coder/tinyPB_coder.cpp:35-90 | an iteration goes on without progress exactly for a length that is not positive or a frame that ends at the capacity |
| Streaming.CallStallsIff | rocket/rocket/net/coder/tinyPB_coder.cpp:32-170 | a whole call makes progress until it ends or reaches such an iteration |
| Streaming.DecodeTerminates | rocket/rocket/net/coder/tinyPB_coder.cpp:32-170 | a call on a buffer whose write index is below the capacity and whose unread bytes declare only positive lengths ends, after at most one iteration per unread byte and one more |
| Streaming.StuckIff | rocket/rocket/net/coder/tinyPB_coder.cpp:35-168 | exactly when an iteration without progress leaves the buffer as it is, so that the call never ends and pushes the same output in each iteration |
| Streaming.TurnConsumes | rocket/rocket/net/coder/tinyPB_coder.cpp:77-91 | any other iteration consumes the declared length, at least 2 bytes, whatever precedes the frame; a declared length of up to 6 gives no output |
| Streaming.CapacityRepeats | rocket/rocket/net/coder/tinyPB_coder.cpp:77-167 | a frame that ends at the capacity is pushed again in every further iteration: after n iterations n times |
| Streaming.StallAfterEnd | rocket/rocket/net/coder/tinyPB_coder.cpp:50-78 | a length of 0 right after an old end byte changes nothing and gives no output |
| Streaming.TurnOfFrame | rocket/rocket/net/coder/tinyPB_coder.cpp:77-167 | a frame behind rejected bytes is decoded, for any err_info, exactly when the bytes taken for its body lie in the storage; but the first bytes are dropped, so as many bytes of garbage stay |
| Streaming.DecodeBehindGarbage | rocket/rocket/net/coder/tinyPB_coder.cpp:32-170 | behind garbage that fails the test all frames of a stream are decoded in order and the garbage is never removed, exactly when the bytes taken for the bodies lie in the storage |
| Streaming.ExtractionsKeepHeaders | rocket/rocket/net/coder/tinyPB_coder.cpp:83-167 | the messages decoded from frames with any err_info keep all fields but the body and what follows the first NUL of err_info |
| Streaming.ExtractionsKeepSendable | rocket/rocket/net/coder/tinyPB_coder.cpp:83-167 | among frames with any err_info, those without one give back their message exactly |
| Streaming.DecodeExactIff | rocket/rocket/net/coder/tinyPB_coder.cpp:32-170 | one call returns exactly the complete frames and leaves exactly the unfinished one if and only if the scan finds nothing in the latter |
| Streaming.StreamingExactIff | rocket/rocket/net/coder/tinyPB_coder.cpp:32-170 | for any cutting into chunks, every call is exact if and only if the unfinished frames stay quiet |
| Streaming.StreamingDecode | rocket/rocket/net/coder/tinyPB_coder.cpp:32-170 | for any cutting into chunks, all outputs together are the messages in order and the leftover is the unfinished frame |
| Streaming.FreshBufferDecodes | rocket/rocket/net/coder/tinyPB_coder.cpp:32-170 | every sendable message that arrives in a fresh buffer with room to spare is decoded, and nothing is left |
| Streaming.WholeFramesAreQuiet | rocket/rocket/net/coder/tinyPB_coder.cpp:50-75 | chunks that end at frame boundaries meet the condition whatever the stale bytes are |
| Streaming.CleanTailIsQuiet | rocket/rocket/net/coder/tinyPB_coder.cpp:50-75 | an unfinished frame with its whole length field (or only its first byte) and no other start byte meets the condition |
| Streaming.CutLengthStalls | rocket/rocket/net/coder/tinyPB_coder.cpp:35-78 | inputs that do not: after a small frame in a fresh buffer and the first two bytes of the next one, the call is still in the same state after any number of iterations |
| ReadPath.FillFrom | rocket/rocket/net/TCP/tcp_connection.cpp:67-96 | the read loop on the mutable buffer computes the specified contents and whether the peer closed |
| ReadPath.ReadLoopKeepsLast | rocket/rocket/net/TCP/tcp_connection.cpp:70-96 | the write index stays below the capacity, the buffer never grows, and only the last, short read is appended |
| ReadPath.ReadLoopExactIff | rocket/rocket/net/TCP/tcp_connection.cpp:70-96 | the buffer keeps everything the kernel handed over if and only if no read but the last carried bytes |
| ReadPath.FillingReadIsLost | rocket/rocket/net/TCP/tcp_connection.cpp:70-96 | an input that fails: 128 bytes read into an empty buffer of 128 are gone |
| ReadPath.FullBufferDoubles | rocket/rocket/net/TCP/tcp_connection.cpp:70-96 | a buffer that is full when the loop is entered is doubled, keeps what it holds, and gets the last, short read |
| ReadPath.RunDelivers | rocket/rocket/net/TCP/tcp_connection.cpp:56-112 | over every run of onRead each call appends its short read to what decode left, at an unchanged capacity; an end of file ends the run |
| ReadPath.RunKeepsAllIff | rocket/rocket/net/TCP/tcp_connection.cpp:56-112 | over every run decode is given all bytes that the kernel handed over if and only if no read filled the space |
| ReadPath.LargeFramesNeverArrive | rocket/rocket/net/TCP/tcp_connection.cpp:56-112 | over every run no message whose frame is as long as the capacity, or longer, is ever decoded |
| Correlation.DispatchRunsFirstReplies | rocket/rocket/net/TCP/tcp_connection.cpp:141-148 | exactly the first message of each registered id runs its callback, once, in order |
| Correlation.RegistrationsBalance | rocket/rocket/net/TCP/tcp_connection.cpp:136-150 | for any interleaving of registrations and messages: runs of a callback for an id and its registration still held are exactly the earlier ones and those registrations made while the id was not held |
| Correlation.RegistrationIsAnswered | rocket/rocket/net/TCP/tcp_connection.cpp:273-277 | a registration made while its id is not held is answered: the first message with the id is handed to that callback, whatever happens before and in between |
| Correlation.ResendingIsHarmless | rocket/rocket/net/TCP/tcp_connection.cpp:136-150 | a client that gets any part of the repeated history behaves as if it got each message in it once |
| Correlation.WireIsResent | rocket/rocket/net/TCP/tcp_connection.cpp:176-200 | the bytes of all sends are the stream of growing prefixes of the encoded messages |
| Correlation.EndToEnd | rocket/rocket/net/TCP/tcp_connection.cpp:56-205 | from the server's sends over arbitrary reads and decodes of any part of their bytes to the callbacks: exactly the first replies among the messages that have arrived run |
| Correlation.EndToEndRead | rocket/rocket/net/TCP/tcp_connection.cpp:56-205 | the same from the bytes that the kernel handed over, when no read fills the space |
| Correlation.RequestsArriveAgain | rocket/rocket/net/TCP/tcp_connection.cpp:114-134 | a server whose client resends gets each request once for every send that it was in |
| TcpConnections.TcpConnection.constructor | rocket/rocket/net/TCP/tcp_connection.cpp:24-46 | a connection with two separate empty buffers |
| TcpConnections.TcpConnection.OnWrite | rocket/rocket/net/TCP/tcp_connection.cpp:152-213 | a client encodes each pushed message once and runs each done callback once, in push order, and what was encoded is recorded with the callback; a successful write sends every frame ever encoded and consumes nothing |
| TcpConnections.RunClient | rocket/rocket/net/TCP/tcp_connection.cpp:152-271 | over every run of pushes and writable events the messages called back and those waiting are the pushed ones in order, the messages encoded are those called back, and each frame is the one of the value the message had at the start |
| TcpConnections.TcpConnection.SetState | rocket/rocket/net/TCP/tcp_connection.cpp:215-217 | the state becomes Connected whatever the argument is |
| TcpConnections.TcpConnection.Shutdown | rocket/rocket/net/TCP/tcp_connection.cpp:235-247 | half-closes a connection that is open |
| TcpConnections.TcpConnection.OnRead | rocket/rocket/net/TCP/tcp_connection.cpp:56-112 | closed connection, end of file, and the decoded and dispatched messages of a read; nothing is dispatched while decode goes on |
| TcpConnections.TcpConnection.Execute | rocket/rocket/net/TCP/tcp_connection.cpp:114-150 | a server gets the decoded requests, a client runs the callbacks of the decoded replies |
| TcpConnections.TcpConnection.Reply | rocket/rocket/net/TCP/tcp_connection.cpp:283-286 | the replies are appended to everything encoded before, and the socket is watched for writing |
| TcpConnections.TcpConnection.PushSendMessage | rocket/rocket/net/TCP/tcp_connection.cpp:267-271 | the message waits behind the others; the order invariant is kept |
| TcpConnections.TcpConnection.PushReadMessage | rocket/rocket/net/TCP/tcp_connection.cpp:273-277 | afterwards the id is held by the callback that held it before, else by the new one; nothing else changes |
| TcpConnections.TcpConnection.Clear | rocket/rocket/net/TCP/tcp_connection.cpp:222-233 | the connection is closed and no longer watched |
| RpcDispatchers.SplitIsUnique | rocket/rocket/net/rpc/rpc_dispatcher.cpp:137-154 | a full name splits at its last dot in exactly one way, and not at all without a dot |
| RpcDispatchers.RpcDispatcher.ParseServiceFullName | rocket/rocket/net/rpc/rpc_dispatcher.cpp:137-154 | service, dot and dot-free method name give back the full name; fails exactly without a dot |
| RpcDispatchers.RpcDispatcher.RegisterService | rocket/rocket/net/rpc/rpc_dispatcher.cpp:132-135 | a second registration replaces the first |
| RpcDispatchers.SetTinyPBErrorCode | rocket/rocket/net/rpc/rpc_dispatcher.cpp:156-162 | sets code, text and text length, and nothing else |
| RpcDispatchers.RpcDispatcher.Dispatch | rocket/rocket/net/rpc/rpc_dispatcher.cpp:33-130 | the response gets id and method of the request; a name without dot, an unknown service or method, or a body that does not parse stops it with its code and text, and otherwise the service gets a closure |
| RpcDispatchers.RpcClosure.Run | rocket/rocket/net/rpc/rpc_dispatcher.cpp:110-127 | whenever the service runs it, a reply is appended to what the connection has encoded, with the id and method of the response and the body, or with the serialisation error |
| RpcDispatchers.RepliesMatchCalls | rocket/rocket/net/rpc/rpc_dispatcher.cpp:33-130 | over every run of requests and closure runs at any time there is one reply for each closure run, in that order, under the id and method of its request and with the body or error of its completion; a request stopped by an error gets none |
| RpcDispatchers.AtMostOneReplyEach | rocket/rocket/net/rpc/rpc_dispatcher.cpp:110-129 | when each closure is run at most once and ids differ, no two replies have the same id |
| RpcDispatchers.CallbacksRunForAnswers | rocket/rocket/net/rpc/rpc_dispatcher.cpp:33-130 | decoded by a client, the replies have run a callback if and only if the closure for a request with its id was run, and hand it the body or the error of the completion; a reply with an err_info makes decode undefined when the bytes taken for its body are not in the buffer |
| RpcDispatchers.ErrorReplyNeedsRoom | rocket/rocket/net/coder/tinyPB_coder.cpp:156-161 | the reply for a failed serialisation, alone in a client's buffer, is decoded if and only if 43 bytes are free behind it; otherwise decode copies from outside the buffer |
| Timers.BoundsSplit | rocket/rocket/net/timer.cpp:59-61 | lower and upper bound split a sorted multimap at a key |
| Timers.ToTimespec | rocket/rocket/net/timer.cpp:150-153 | the armed timespec is normalised, never zero, and lasts exactly the interval |
| Timers.FiredApart | rocket/rocket/net/timer.cpp:100-112 | what is collected is disjoint from what is left, and both keep agreeing keys |
| Timers.OnlyLater | rocket/rocket/net/timer.cpp:112-121 | after re-arming with intervals of at least 1 only keys later than the firing time remain |
| Timers.TimerEvent.ResetArriveTime | rocket/rocket/net/timer_event.cpp:14-17 | the arrive time is the current time plus the interval |
| Timers.InsertPutsBehind | rocket/rocket/net/timer.cpp:46-46 | a new entry stands behind everything not later and in front of everything later |
| Timers.Timer.AddTimerEvent | rocket/rocket/net/timer.cpp:33-52 | the entry stands behind everything not later; keys keep agreeing and the timerfd stays armed in time when the event was not pending; it is armed anew exactly for an event earlier than all others |
| Timers.Timer.DeleteTimerEvent | rocket/rocket/net/timer.cpp:54-78 | exactly this event is removed and canceled, the others keep their order, and the timerfd stays armed in time |
| Timers.Timer.Collect | rocket/rocket/net/timer.cpp:98-110 | the loop finds the due prefix and collects its live entries in order |
| Timers.LiveExactly | rocket/rocket/net/timer.cpp:98-110 | the live entries are exactly those not canceled, in their order |
| Timers.RepeatedExactly | rocket/rocket/net/timer.cpp:115-121 | the events put back are exactly the repeated ones, in their order |
| Timers.Timer.OnTimer | rocket/rocket/net/timer.cpp:81-122 | up to the callbacks: collects exactly the live due events in order, drops canceled due ones, puts exactly the repeated ones back at the current time plus their interval, and arms the timerfd for the first event left, neither later nor earlier |
| Timers.Timer.ResetArriveTime | rocket/rocket/net/timer.cpp:131-167 | arms the timerfd for the earliest arrival, or 100 ms ahead when that is past |
| Timers.DeletedRunsOnlyIf | rocket/rocket/net/timer.cpp:54-129 | over every run in which callbacks and others add, delete and un-cancel at any time: each collected event has its callback run once, in order of collection; after a deletion it runs only if the onTimer still running had collected it before, or if it was both un-canceled and added before it was collected again |
| Timers.DeletedByCallbackRuns | rocket/rocket/net/timer.cpp:95-128 | an input: of two events due together the callback of the first deletes the second, whose callback then runs although it is canceled and not pending |
| Timers.RunFirstComeFirst | rocket/rocket/net/timer.cpp:33-122 | over every run no event is pending twice, and of pending events with the same arrive time the one inserted first stands first |
| Timers.CollectedInOrder | rocket/rocket/net/timer.cpp:95-112 | over every run onTimer collects exactly the due events not canceled, by arrive time and, where that is the same, in the order of insertion |
| Timers.Run | rocket/rocket/net/timer.cpp:33-167 | every run of commands on the timer and its mutable events is a run of that step system, with its callbacks; keys agree and the timerfd is never armed too late |
| Arming.SetInTimeIff | rocket/rocket/net/timer.cpp:131-160 | with calls from several threads: a call arms the timerfd in time exactly when no earlier event was inserted between its copy of the map and its timerfd_settime and is still pending, or the event it arms for is at most 100 ms ahead |
| Arming.PutArmsIff | rocket/rocket/net/timer.cpp:37-51 | a call of addTimerEvent has to arm the timerfd exactly when its event is earlier than all others |
| Arming.ArmedUnlessOvertaken | rocket/rocket/net/timer.cpp:33-167 | over every interleaving in which no call is overtaken like that, the timerfd is armed in time whenever no call is under way |
| Arming.OvertakenIsLate | rocket/rocket/net/timer.cpp:37-51 | an interleaving of two calls of addTimerEvent that leaves the timerfd armed 500 ms too late |
| RpcChannels.CompletionProtocol | rocket/rocket/net/rpc/rpc_channel.cpp:28-241 | for every interleaving the closure runs at most once, exactly when a successful response is the first terminal event; finished exactly when either the closure ran or the error code is set; a null controller is dereferenced exactly when CallMethod comes without one or before Init |
| RpcChannels.OutcomeByEvents | rocket/rocket/net/rpc/rpc_channel.cpp:44-226 | for every interleaving, by event: the error code is the last one reported, by the reply, the connect, the timeout or the start; canceled exactly when a timeout finds the call unfinished; when the timer runs, and what the call waits for |
| RpcChannels.RequestCarriesId | rocket/rocket/net/rpc/rpc_channel.cpp:72-87 | a request that goes out carries the id of its controller: the caller's, else the running call's, else a generated one |
| RpcChannels.SettledStays | rocket/rocket/net/rpc/rpc_channel.cpp:116-139 | once decided, later responses and timeouts never change success into failure or back |
| RpcChannels.RpcController.SetError | rocket/rocket/net/rpc/rpc_controller.cpp:50-56 | records the error and marks the call failed and finished |
| RpcChannels.RpcController.StartCancel | rocket/rocket/net/rpc/rpc_controller.cpp:35-38 | marks the call canceled and finished |
| RpcChannels.RpcChannel.CallBack | rocket/rocket/net/rpc/rpc_channel.cpp:28-42 | runs the closure once and finishes the controller, unless it is already finished |
| RpcChannels.RpcChannel.Init | rocket/rocket/net/rpc/rpc_channel.cpp:228-241 | refines the initialise step; a second call changes nothing |
| RpcChannels.RpcChannel.CallMethod | rocket/rocket/net/rpc/rpc_channel.cpp:44-141 | refines the start step: missing controller, argument and address errors, message id, missing Init, serialisation error, each with its text, or timer and connect |
| RpcChannels.RpcChannel.OnTimeout | rocket/rocket/net/rpc/rpc_channel.cpp:115-139 | refines the timeout step, with the error text |
| RpcChannels.RpcChannel.OnConnect | rocket/rocket/net/rpc/rpc_channel.cpp:144-167 | refines the connect step, with the error text |
| RpcChannels.RpcChannel.OnResponse | rocket/rocket/net/rpc/rpc_channel.cpp:177-223 | refines the response step, with the error text |
| EventLoops.RunsStartInOrder | rocket/rocket/net/eventLoop.cpp:100-199 | for every interleaving of adders and the loop: executed, batch and pending tasks are the tasks added, in order, and at most one epoll_wait lies behind every task, executed or, while the loop runs, still waiting |
| EventLoops.RunsStartPromptly | rocket/rocket/net/eventLoop.cpp:100-158 | by the steps of the run alone: the k-th task added is the k-th executed, with at most one epoll_wait between the two |
| EventLoops.StepPrompt | rocket/rocket/net/eventLoop.cpp:100-158 | every step keeps the bound on waits behind each waiting task |
| EventLoops.LastOperationWins | rocket/rocket/net/eventLoop.cpp:20-50 | over every sequence of registrations, deletions and mask changes a descriptor is watched with the mask at its last registration, unless deleted since |
| EventLoops.LastTaskWins | rocket/rocket/net/eventLoop.cpp:172-188 | a queued registration leaves its descriptor watched with the mask at that point, and a queued deletion unwatched, when nothing later in the round concerns it |
| EventLoops.QueuedWait | rocket/rocket/net/eventLoop.cpp:190-199 | whatever happens while tasks run, the tasks queued meanwhile wait behind the others, in order |
| EventLoops.HaltStops | rocket/rocket/net/eventLoop.cpp:165-168 | the loop is stopped exactly when something stops it |
| EventLoops.EventLoop.RunFirst | rocket/rocket/net/eventLoop.cpp:108-114 | a queued registration watches its descriptor with the current mask, a queued deletion unwatches it, and a callback by itself does neither |
| EventLoops.EventLoop.Perform | rocket/rocket/net/eventLoop.cpp:165-199 | what each action of a callback does to the kernel, the queue, the flag and the FdEvents |
| EventLoops.FdEvent.Listen | rocket/rocket/net/fd_event.cpp:33-49 | mask and callbacks after a registration; a second one drops the error callback |
| EventLoops.FdEvent.Cancel | rocket/rocket/net/fd_event.cpp:61-67 | clears one direction of the mask |
| EventLoops.EventLoop.AddToEpoll | rocket/rocket/net/eventLoop.cpp:20-33 | the operation issued is legal for the kernel and the loop's set stays equal to the kernel's |
| EventLoops.EventLoop.DeleteFromEpoll | rocket/rocket/net/eventLoop.cpp:36-50 | a deletion is issued only for a watched descriptor, and the sets stay equal |
| EventLoops.EventLoop.AddEpollEvent | rocket/rocket/net/eventLoop.cpp:172-179 | at once in the loop's thread, else deferred as a queued registration |
| EventLoops.EventLoop.DeleteEpollEvent | rocket/rocket/net/eventLoop.cpp:181-188 | at once in the loop's thread, else deferred |
| EventLoops.EventLoop.AddTask | rocket/rocket/net/eventLoop.cpp:190-199 | the task waits behind the others; refines a step |
| EventLoops.EventLoop.Stop | rocket/rocket/net/eventLoop.cpp:165-168 | sets the flag; refines a step |
| EventLoops.EventLoop.BeginRound | rocket/rocket/net/eventLoop.cpp:102-106 | a stopped loop ends; otherwise exactly the pending tasks become the batch; refines a step |
| EventLoops.EventLoop.RunRound | rocket/rocket/net/eventLoop.cpp:100-114 | a round runs exactly the tasks pending at the swap, in order; what callbacks and other threads do meanwhile, registrations and mask changes included, takes effect in order, and tasks added wait |
| EventLoops.EventLoop.Dispatch | rocket/rocket/net/eventLoop.cpp:124-156 | the events of one epoll_wait become tasks in order, and descriptors in error are no longer watched |
| EventLoops.TasksOfTrigger | rocket/rocket/net/eventLoop.cpp:134-153 | which callbacks an event queues, and in which order |
| MsgIds.IncrementAddsOne | rocket/rocket/common/msg_id_util.cpp:35-46 | the carry loop adds one modulo 10 to the number of digits |
| MsgIds.IncrementsAdd | rocket/rocket/common/msg_id_util.cpp:35-46 | k increments add k modulo 10^20 |
| MsgIds.GenerateIncrements | rocket/rocket/common/msg_id_util.cpp:18-50 | calls without a seeding increment the number once each |
| MsgIds.IdsDistinct | rocket/rocket/common/msg_id_util.cpp:18-50 | the ids of two calls without a seeding in between are equal if and only if the number of calls between them is a multiple of 10^20 |
| MsgIds.SeedsAtMostTwice | rocket/rocket/common/msg_id_util.cpp:18-50 | over every run the maximum has 20 nines per seeding, a thread seeds at most twice, and digits run out only after the second |
| MsgIds.MsgIdGenerator.GenerateMsgId | rocket/rocket/common/msg_id_util.cpp:18-50 | a first call or one at the maximum takes its 20 digits from the random bytes modulo 10, or returns the empty string when the read fails; any other adds one modulo 10^20 |
| MsgIds.MsgIdGenerator.Carry | rocket/rocket/common/msg_id_util.cpp:35-46 | the two loops in place compute the increment |
| AsyncLogs.LogPipeline | rocket/rocket/common/log.cpp:84-311 | for every interleaving: the messages written, queued, on the way to the queue and in front are those pushed, in order unless calls of syncLoop overtake each other; the files by name hold exactly the text written; each is at most the size limit plus one batch |
| AsyncLogs.SyncsOvertake | rocket/rocket/common/log.cpp:102-111 | an interleaving of two calls of syncLoop that queues messages out of order |
| AsyncLogs.StopWritesOne | rocket/rocket/common/log.cpp:225-295 | after a stop at most one batch is written, the first of the queue |
| AsyncLogs.LeavesWhenStopped | rocket/rocket/common/log.cpp:219-295 | the writer leaves exactly with its first batch after a stop |
| AsyncLogs.StopLosesIff | rocket/rocket/common/log.cpp:225-295 | when syncLoop has queued everything before a stop, all of it is written if and only if at most one batch is in the queue and the writer gets to it |
| AsyncLogs.WriteHoldsText | rocket/rocket/common/log.cpp:247-282 | one round of the writer appends exactly its batch to the text held by the ordered files, through date change and rotation |
| AsyncLogs.WritesTo | rocket/rocket/common/log.cpp:247-282 | the file a batch goes to: a new day starts again with number 0, the next number is taken exactly when the file is larger than the limit, and no other file changes |
| AsyncLogs.AsyncLogger.Reopen | rocket/rocket/common/log.cpp:247-267 | date, number and file after the check for a new day |
| AsyncLogs.AsyncLogger.Rotate | rocket/rocket/common/log.cpp:269-274 | the next number and its file exactly when the open file is larger than the limit |
| AsyncLogs.AsyncLogger.LoopOnce | rocket/rocket/common/log.cpp:225-287 | takes the first batch, reopens or rotates, writes it, and leaves when stopped |
| AsyncLogs.AsyncLogger.WriteAll | rocket/rocket/common/log.cpp:276-282 | the open file grows by the concatenated messages |
| AsyncLogs.AsyncLogger.PushLogBuffer | rocket/rocket/common/log.cpp:303-311 | the batch waits behind the others |
| AsyncLogs.Logger.PushLog | rocket/rocket/common/log.cpp:84-92 | the message waits behind the others in the front buffer |
| AsyncLogs.Logger.SyncLoop | rocket/rocket/common/log.cpp:102-125 | the front buffer becomes one batch; an empty one leaves the queue alone |

## Left out

- Sockets, epoll, timerfd, eventfd, /dev/urandom, files and clocks: their results are parameters or nondeterministic; a write is
  all-or-nothing, timerfd_settime and epoll_ctl succeed, and one clock serves gettimeofday and the timerfd.
- Mutual exclusion: each critical section is one atomic step of the step systems, and a round of the log's writer is one
  step. Calls of one object's methods do not overlap; `Arming` covers calls of the timer that do.
- `TinyPBCoder.Decode`: after undefined behaviour nothing is said.
- `TinyPBCoder.DecodeAll`: does not follow a call beyond an iteration without progress. `Turns` does; `StuckIff` says when
  such a call never ends, but which calls end after a length that moves the read index back is not characterised.
- `ReadPath.RunDelivers`: a run goes on after a call of decode only if that call has returned making progress all the time.
- `TcpBuffers.TcpBuffer.WriteToBuffer`: requires that the grown storage can hold the new bytes; the source writes behind its
  storage otherwise. Sums of indices and sizes are taken to stay within an int.
- `TcpBuffers.TcpBuffer.ReadFromBuffer`: a negative size, for which the source asks for a vector of negative length.
- `TcpConnections.TcpConnection.OnRead`: the requests of a server are returned to be passed to the dispatcher. What
  callbacks do is not modelled beyond the fact that they ran, with which message.
- `RpcDispatchers.RpcDispatcher.Dispatch`: protobuf is a test for each service, method and body, and a completion of the
  service's choice; controllers and the run-time record of the current call are not modelled.
- `TcpConnections.TcpConnection.OnWrite`: done callbacks do not push further messages.
- `TcpConnections.RunClient`: ends at a write whose frames the grown buffer cannot hold.
- `RpcChannels.RpcChannel.CallMethod`: called with another controller than the one given to Init, or with a null closure given
  to Init.
- `EventLoops.EventLoop.RunRound`: the actions of callbacks and of other threads are given as a list for each task. No claim is
  made about lost wakeups.
- `MsgIds.MsgIdGenerator.Carry`: the source looks at the character before the first one when all digits are nines; the
  model tests the index first.
- `AsyncLogs.LogPipeline`: files that existed before the process, a clock that goes back, and the second pipeline for
  application messages, which is another instance of the same classes.
- Round-robin choice of threads, address parsing, configuration, log text formatting, signal
  handlers and the code generator: each is a single loop or lookup, or text processing, on which none of the above depends.
