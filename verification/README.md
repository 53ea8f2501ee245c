# Verified model of the media transport

This project models what the SDK does with a camera's media stream, from the
bytes of the relay connection up to published JPEG frames, and the two state
machines that supervise it. Each module follows a file of the SDK:

- `KcpSegment`, `Kcp`, `KcpConversation`: the 24-byte header and one KCP
  conversation. `Kcp` says what each operation makes of a conversation's fields,
  `KcpConversation` is the object whose loops and updates are proved to do that.
- `KcpSender`, `KcpRetransmit`, `KcpReceiver`, `KcpConfluence`, `KcpHandler`: whole
  runs of one conversation. The sending half needs the peer's good behaviour, the
  receiving half is proved against a link that reorders, duplicates and loses.
- `KcpOperations`: what each operation of a conversation does, field by field.
- `KcpSystem`, `KcpQuiescence`, `KcpDelivery`: two conversations joined by two
  lossless FIFO links, which is what the TCP relay gives them.
- `KcpOneWay`: everything one conversation transmits, read from the beginning.
- `RelayFraming`, `RelayConnection`, `RelayHandshake`, `KcpOverRelay`: the framed
  byte stream, its read loop, the handshake frame, and conversations carried over
  that stream byte for byte.
- `RelayRouting`, `RelaySession`, `Tunnel`, `TunnelStream`: the table of
  conversations and the signaling tunnel.
- `Crypto`, `Media`, `MediaExactness`, `Jpeg`, `JpegReassembler`, `StreamSession`:
  records, packets, the offset-addressed frame buffer, and the path through all
  three.
- `VideoDelivery`: all of it in a row, from the device's `send` over the bytes of
  the connection to published frames.
- `Supervision`, `FanOut`, `CameraStream`, `Motion`, `MotionDetector`: retrying a
  camera, fanning its frames out, and reading motion out of frame sizes.

Lemmas named `...Exactly` say in bytes and numbers what one operation does, so that the
results about runs, which speak through the operations, rest on something.

## Assumptions

- A conversation hands segments on as values. The counters are unbounded, as they
  are in Python, and `OnWire` cuts every field to its header width where a
  segment enters a link. The results about two endpoints, about reading what one
  transmits, and the end-to-end ones hold for runs in which no side has sent 2^32
  segments (`Counting`); the others about one conversation need no such bound.
- Every call may read any values from the millisecond clock: it may wrap or run
  backwards. Only the motion detector's results need a clock, in seconds, that is
  not negative and does not run backwards; the clock of a sample is read in any
  case but used only past the warm-up.
- The other end of a conversation behaves on the wire as this code does. Only the
  results about two endpoints, about reading what one transmits, and the
  end-to-end ones need that.
- Handlers do not call back into the object that calls them, and handing a
  segment to the connection does not raise. Each method runs to its end before
  anything else happens, as an asyncio callback does; the one modelled coroutine
  that can be suspended half-way is named under "Left out".
- AES-CBC is any pair of functions in which encryption keeps the length of whole
  blocks and decryption undoes it; the two tags are any functions with results of
  20 and 32 bytes. Initialization vectors the code draws are any 16-byte strings.
- Seconds and frame differences are exact reals.

## What the code does not keep

- The `una` values a conversation emits do decrease: a retransmitted push carries
  the receive sequence of the moment it was built (kcp_conversation.py lines
  150 and 207), although the module's docstring says that `una` has to advance.
  `KcpRetransmit.UnaCanDecrease` is the shortest such run and
  `KcpRetransmit.RunUnaOrder` says exactly when it happens.
- The order of arrival can make a difference once sequences reach 512:
  `KcpConfluence.ConfluentIff` says for which sets of pushes it does.
- A handler misses what was completed before it was there.
  `KcpDelivery.HandsOverWhatWasSent` and `KcpHandler.RunHandsAllIff` say exactly
  when nothing is missed. The video conversation's first segment always comes too
  early for its handler, as `_route` resolves the future and feeds the segment
  before the waiter can run (relay_session.py lines 91-95);
  `RelayRouting.FirstMessageIsLost` is that run, and tests/test_relay.py lines
  106-113 expect it.
- A packed record is not always extracted to what was packed: a false marker in a
  length prefix or in header fields can be taken first, as in
  `Media.PackingCanBeMistaken`. `MediaExactness.ExtractExactly` says exactly when
  this happens, for packets that do not continue themselves at a distance of 4 to
  17 bytes; `MediaExactness.RepeatingIsExtracted` is why these are left out: such a
  packet can come back right from the wrong place. Where the packets are found is
  decided for all of them, by `Media.ScanExactlyPacked`.
- The first retry delay is not capped by `retry_max`
  (`Supervision.WaitsAreCappedIff`), and with a busy limit of zero or less
  listeners are told of a change that did not happen
  (`Supervision.NotifiedOnFlips`).
- A detector that no frame has stirred reports motion if its clock was below zero
  (`Motion.UnconfirmedReportIff`); `time.monotonic` does not give such a reading.

## Model

| member | source | states |
|---|---|---|
| VideoDelivery.VideoIsPublished | src/tuya_ipc_p2p_sdk/stream_session.py:262-277 | Byte for byte from the device's `send` to the published frames: the messages of any run of the device's video conversation, whatever it is answered and however often it resends, travel as tagged frames among other conversations, keepalives and other frames; the client reads the stream, routes every segment and gives the conversation its handler on the way. If the messages after those completed before that are records of images, after packets that begin no frame, then at any moment what was published is a prefix of all images but the last, and it is all of those, counted, once the stream was read |
| VideoDelivery.VideoFromAnyMoment | src/tuya_ipc_p2p_sdk/stream_session.py:262-277 | The same for a device that sends nothing but records of images, whenever the handler comes: lost are exactly the images whose first packet was in a message missed, one that was cut in two included, and of the images after those a prefix is published so far, and all but the last in the end |
| VideoDelivery.VideoMessagesArrive | src/tuya_ipc_p2p_sdk/transport/relay_session.py:84-95 | At any moment the segments of the video conversation read so far, among those of all others, have completed a prefix of the messages the device sent on it, all of them once everything was read; the handler was given the non-empty ones after those completed before it was there |
| KcpDelivery.HandsOverWhatWasSent | src/tuya_ipc_p2p_sdk/transport/kcp_conversation.py:69-158 | In any run of two endpoints over lossless FIFO links (sends, deliveries, sweeps, closes, handlers installed and removed at will), on either side: the handler was called with all the non-empty messages completed if and only if none was completed while no handler was there; then they are a prefix of the non-empty messages sent; and once the link is drained and the endpoint open, the handler was called with all of those sent if and only if nothing was lost like that |
| KcpDelivery.HandsOverFromInstall | src/tuya_ipc_p2p_sdk/transport/kcp_conversation.py:69-158 | In any such run a handler that is there after some action and not removed later is called with exactly the non-empty messages completed from then on, a prefix of those sent after the ones completed before, and all of them once the link is drained and the endpoint open |
| KcpHandler.StepHands | src/tuya_ipc_p2p_sdk/transport/kcp_conversation.py:130-134 | One operation calls the handler with exactly the non-empty messages it completes if it was installed, and with nothing otherwise |
| KcpHandler.RunHandsAllIff | src/tuya_ipc_p2p_sdk/transport/kcp_conversation.py:69-134 | Over any run of one conversation: everything non-empty that was completed was handed over if and only if no event completed a non-empty message without a handler |
| KcpHandler.RunHandsFromInstall | src/tuya_ipc_p2p_sdk/transport/kcp_conversation.py:69-134 | A handler installed and kept is called with exactly the non-empty messages completed from then on |
| KcpHandler.RunDeaf | src/tuya_ipc_p2p_sdk/transport/kcp_conversation.py:69-134 | Whether and when a handler was there makes no difference to anything else: the same acknowledgements, the same messages completed, the same queue |
| KcpHandler.StepWithoutHandler | src/tuya_ipc_p2p_sdk/transport/kcp_conversation.py:130-134 | Without a handler one operation does what it would do with one, completes and acknowledges included, and hands over nothing |
| KcpHandler.StepKeepsListening | src/tuya_ipc_p2p_sdk/transport/kcp_conversation.py:69-134 | While a handler stays, everything non-empty that was completed stays everything handed over |
| RelayRouting.FirstMessageIsLost | src/tuya_ipc_p2p_sdk/transport/relay_session.py:84-95 | The first segment of a conversation is consumed before anyone can install a handler: if it is a whole message, that is acknowledged and lost, and a handler installed next and kept is called with exactly the non-empty messages after it |
| KcpSystem.DeliversWhatWasSent | src/tuya_ipc_p2p_sdk/transport/kcp_conversation.py:73-158 | In both directions of any run, the messages reassembled are a prefix of those sent, empty ones included, and equal once the link is drained and the receiver is open; whether the sender has closed does not matter |
| KcpSystem.NothingRetiredUnread | src/tuya_ipc_p2p_sdk/transport/kcp_conversation.py:77-85 | In any run, every sequence that left the pending queue of an open endpoint is below the peer's receive sequence, although an acknowledgement retires everything up to its own sequence |
| KcpSystem.ExecuteKeeps | src/tuya_ipc_p2p_sdk/transport/kcp_conversation.py:73-217 | The invariant behind both: reading the link from the peer's receive sequence on, every push comes after all below it, acknowledgements in flight name consumed sequences only, and the receiver has never anything held back |
| KcpSystem.PushLogRegroups | src/tuya_ipc_p2p_sdk/transport/kcp_conversation.py:136-158 | Cutting messages into pushes that count down to zero and regrouping them loses nothing, for any list of messages |
| KcpQuiescence.DrainedIsSettled | src/tuya_ipc_p2p_sdk/transport/kcp_conversation.py:160-178 | Once both links are drained and both endpoints are open, nothing is pending on either side, no retransmit task is armed, and both have everything the other sent |
| KcpReceiver.ReceiverRefinesLog | src/tuya_ipc_p2p_sdk/transport/kcp_conversation.py:113-134 | Under any reordering, duplication and loss of one sender's pushes, mixed with anything else: the receive sequence is the least sequence never accepted, what is held back is exactly what was accepted above it (within 512), and what was delivered is the regrouped log below it, each message once and in order |
| KcpConfluence.ConfluentIff | src/tuya_ipc_p2p_sdk/transport/kcp_conversation.py:119-125 | For any set of pushes of a log: every two arrival orders, with duplicates, end with the same messages, partial message, receive sequence and chunks held back if and only if each sequence is below 512 or at least 512 above the least number not in the set |
| KcpConfluence.Confluence | src/tuya_ipc_p2p_sdk/transport/kcp_conversation.py:113-134 | Two given arrival orders of the same pushes make no difference under that condition |
| KcpConfluence.WindowEdges | src/tuya_ipc_p2p_sdk/transport/kcp_conversation.py:121-122 | 512 alone or beside 1 meets the condition, beside 0 it does not |
| KcpConfluence.WindowEdgeIsNotConfluent | src/tuya_ipc_p2p_sdk/transport/kcp_conversation.py:121-122 | Beside 0, sequence 512 is dropped if it comes first and held back if it comes second |
| KcpOneWay.RunStreams | src/tuya_ipc_p2p_sdk/transport/kcp_conversation.py:136-207 | In any run, whatever arrives and however often it sweeps, what a conversation transmits brings the pushes of the messages it was given in order and completely |
| KcpOneWay.ReaderCompletes | src/tuya_ipc_p2p_sdk/transport/kcp_conversation.py:113-158 | At any moment a conversation that reads what another one transmitted has completed a prefix of the messages that one was given, and exactly those once it has read everything |
| KcpOperations.TakenExactly | src/tuya_ipc_p2p_sdk/transport/kcp_conversation.py:136-143 | `send` refuses a closed conversation and a message above 256 * 1376 bytes, and takes every other |
| KcpOperations.SendExactly | src/tuya_ipc_p2p_sdk/transport/kcp_conversation.py:136-158 | A message taken is cut into pieces of 1376 bytes and what is left, at least one; each goes out once, under the conversation's id, counting down to zero, with window 512, the clock as read for it, the next sequence and the receive sequence, and is queued with the clock as read after that and one transmit; nothing else changes but that the retransmit task runs |
| KcpOperations.AnswersExactly | src/tuya_ipc_p2p_sdk/transport/kcp_conversation.py:80-111 | A push is answered with one acknowledgement that echoes its sequence and timestamp and carries the receive sequence reached, a window probe with the window and the clock, both announcing 512, anything else with nothing |
| KcpOperations.RetiresExactly | src/tuya_ipc_p2p_sdk/transport/kcp_conversation.py:77-85 | A segment retires everything below its receive sequence, an acknowledgement also everything up to its own, no further than what was sent, and nothing above changes |
| KcpOperations.SweepExactly | src/tuya_ipc_p2p_sdk/transport/kcp_conversation.py:191-207 | A sweep in which no due entry has used up its eight transmits sends exactly the segments of all entries that waited 300 ms, in queue order; those get the time and one more transmit, and nothing else changes |
| KcpOperations.SweepGivesUp | src/tuya_ipc_p2p_sdk/transport/kcp_conversation.py:197-204 | A sweep that meets a due entry with eight transmits sends the due entries before it and closes the conversation |
| KcpOperations.ClosesExactly | src/tuya_ipc_p2p_sdk/transport/kcp_conversation.py:209-217 | Closing drops the queue, what was held back and the handler and stops the retransmit loop; all else stays, a half-built message included |
| KcpOperations.ResendsAreIdentical | src/tuya_ipc_p2p_sdk/transport/kcp_conversation.py:136-207 | In any run every segment transmitted carries the conversation's id and window 512, and any two pushes with the same sequence are the same segment |
| KcpSender.RunKeepsSender | src/tuya_ipc_p2p_sdk/transport/kcp_conversation.py:136-207 | In any run the pending queue holds exactly the sequences from its base to the next to send, in order; the retransmit task is armed exactly when it is non-empty and the conversation open; every entry knows how often it went out; no sequence goes out as a push more than eight times |
| KcpSender.StepKeepsSender | src/tuya_ipc_p2p_sdk/transport/kcp_conversation.py:73-217 | Every single operation keeps that invariant |
| KcpSender.InputMovesBase | src/tuya_ipc_p2p_sdk/transport/kcp_conversation.py:77-85 | One inbound segment moves the base to max(base, min(una or sn+1, next)), and leaves the entries above as they were |
| KcpSender.InputReplies | src/tuya_ipc_p2p_sdk/transport/kcp_conversation.py:80-111 | What one inbound segment is answered with: a push with one acknowledgement that echoes sn and ts and carries the receive sequence after delivery, a window probe with the window, anything else with nothing |
| KcpRetransmit.UnansweredGivesUp | src/tuya_ipc_p2p_sdk/transport/kcp_conversation.py:191-217 | With no acknowledgement of the oldest entry arriving, whatever else happens: after more due sweeps than it has transmits left the conversation is closed, and from then on it transmits and hands over nothing |
| KcpRetransmit.ClosedStaysClosed | src/tuya_ipc_p2p_sdk/transport/kcp_conversation.py:73-76 | A closed conversation stays closed, transmits nothing and hands over nothing, whatever happens to it |
| KcpRetransmit.RunUnaOrder | src/tuya_ipc_p2p_sdk/transport/kcp_conversation.py:99-111 | Over a whole run the `una` values emitted never decrease if and only if no sweep resends a push older than the newest acknowledgement |
| KcpRetransmit.SweepKeepsUnaOrder | src/tuya_ipc_p2p_sdk/transport/kcp_conversation.py:191-207 | One sweep keeps the `una` values in order if and only if the oldest due entry does not carry an older one than was last emitted |
| KcpRetransmit.StepKeepsUna | src/tuya_ipc_p2p_sdk/transport/kcp_conversation.py:73-158 | Every other operation keeps them in order |
| KcpRetransmit.UnaCanDecrease | src/tuya_ipc_p2p_sdk/transport/kcp_conversation.py:205-207 | A run of three steps in which `una` decreases |
| Conversation.KcpConversation.Input | src/tuya_ipc_p2p_sdk/transport/kcp_conversation.py:73-97 | The method makes the whole state the specification says, `una` retired first, delivery before acknowledgement |
| Conversation.KcpConversation.Accept | src/tuya_ipc_p2p_sdk/transport/kcp_conversation.py:113-134 | The delivery loop drains the window and the reassembly to the specified state |
| Conversation.KcpConversation.Send | src/tuya_ipc_p2p_sdk/transport/kcp_conversation.py:136-158 | The fragmenting loop queues and transmits the specified pushes; a closed conversation and a message of more than 256 segments are refused with the state unchanged |
| Conversation.KcpConversation.RetirePending | src/tuya_ipc_p2p_sdk/transport/kcp_conversation.py:160-165 | The retirement loop drops exactly the entries below the given sequence and disarms an empty queue |
| Conversation.KcpConversation.RetransmitOnce | src/tuya_ipc_p2p_sdk/transport/kcp_conversation.py:191-207 | The sweep over the entries, with its early end when one has used up its transmits |
| Conversation.KcpConversation.CloseConversation | src/tuya_ipc_p2p_sdk/transport/kcp_conversation.py:209-217 | Closing empties the window and the queue, disarms and forgets the handler, once |
| KcpSegment.ParseBuild | src/tuya_ipc_p2p_sdk/transport/kcp_segment.py:35-76 | Parsing a built segment, whatever bytes follow, gives its fields cut to their header widths |
| KcpSegment.BuildParse | src/tuya_ipc_p2p_sdk/transport/kcp_segment.py:35-76 | Rebuilding a parsed segment gives back exactly the bytes it occupied |
| KcpSegment.BuiltExactly | src/tuya_ipc_p2p_sdk/transport/kcp_segment.py:54-76 | Which segments can be built, and the place, width and byte order of every header field |
| KcpSegment.ParsedExactly | src/tuya_ipc_p2p_sdk/transport/kcp_segment.py:35-51 | Which bytes are a segment, and every field of it from its bytes |
| RelayFraming.FrameExactly | src/tuya_ipc_p2p_sdk/transport/relay_framing.py:37-39 | A frame is magic, zero, the length high byte first, and a body of less than 65536 bytes |
| RelayFraming.MediaFrameExactly | src/tuya_ipc_p2p_sdk/transport/relay_framing.py:52-61 | A media frame byte for byte: f6 00, length, 00 07, length of segment and tag, segment, tag |
| RelayFraming.UnwrappedExactly | src/tuya_ipc_p2p_sdk/transport/relay_framing.py:64-75 | Which payloads are accepted as media, and which of their bytes are the segment |
| RelayFraming.FrameReadExactly | src/tuya_ipc_p2p_sdk/transport/relay_connection.py:154-162 | When a stream holds a whole frame, and which bytes it is |
| RelayFraming.ReadExactly | src/tuya_ipc_p2p_sdk/transport/relay_connection.py:182-191 | A frame that is not f6 is passed over, a bad one ends the loop, a good one is handed over, and a stream without a whole frame has ended |
| RelayFraming.TurnsExactly | src/tuya_ipc_p2p_sdk/transport/relay_connection.py:182-191 | The same with a connection found closed, which is looked at before every frame |
| RelayFraming.ReadBackWritten | src/tuya_ipc_p2p_sdk/transport/relay_connection.py:149-191 | For any interleaving of media frames with keepalives and other frames, ended at a frame's end or inside one, the read loop hands over exactly the segments written, in order |
| RelayFraming.ReadAllGrows | src/tuya_ipc_p2p_sdk/transport/relay_connection.py:178-191 | The segments handed over from a stream are a prefix of those of any longer stream |
| RelayFraming.StoppedIsPrefix | src/tuya_ipc_p2p_sdk/transport/relay_connection.py:182-191 | Closed after any number of frames, the loop has handed over a prefix of what it would have; it has handed over all of it unless it stopped for that |
| RelayFraming.HandedWereTagged | src/tuya_ipc_p2p_sdk/transport/relay_framing.py:64-75 | On any byte stream, each segment handed over was followed there by its own tag under the media key |
| RelayFraming.UnwrapMedia | src/tuya_ipc_p2p_sdk/transport/relay_framing.py:52-75 | Unwrapping undoes wrapping |
| RelayFraming.MediaFrameFits | src/tuya_ipc_p2p_sdk/transport/relay_framing.py:52-61 | A media frame can be built if and only if both of its 16-bit lengths hold |
| RelayConnections.RelayConnection.ReadLoop | src/tuya_ipc_p2p_sdk/transport/relay_connection.py:178-196 | The loop hands over the segments of its stream when a handler is installed, stops at the first bad media frame or when it finds the connection closed, before or between any two frames, and fires the close handler once |
| RelayConnections.RelayConnection.AsyncClose | src/tuya_ipc_p2p_sdk/transport/relay_connection.py:221-241 | The first call closes, drops the socket and fires the close handler if it was not fired; later calls change nothing |
| RelayConnections.RelayConnection.WriteSegment | src/tuya_ipc_p2p_sdk/transport/relay_connection.py:164-168 | A segment is framed and written while connected and open, and only then |
| KcpOverRelay.TransmissionsArrive | src/tuya_ipc_p2p_sdk/transport/kcp_conversation.py:86-157 | Everything a conversation transmits in any run, serialised, tagged, framed and interleaved with other frames, is read off the stream and parsed back to exactly those segments, in order |
| KcpOverRelay.RunCarriable | src/tuya_ipc_p2p_sdk/transport/kcp_conversation.py:136-157 | Every segment a conversation ever transmits fits the segment header and a relay frame |
| RelayHandshake.ParseAssembled | src/tuya_ipc_p2p_sdk/transport/relay_framing.py:83-136 | For every key, vector, session id, user name and message whose frame can be built, reading the frame and scanning its payload recovers the message |
| RelayHandshake.AssembledIsSigned | src/tuya_ipc_p2p_sdk/transport/relay_framing.py:111-114 | A handshake frame ends with the tag over everything but the tag itself, announced by the four bytes before |
| RelayHandshake.AssembledExactly | src/tuya_ipc_p2p_sdk/transport/relay_framing.py:98-114 | Which handshake frames can be built, and all their bytes: message index, the three numbered values, the empty one, the encrypted section, the tag |
| RelayHandshake.ScanExactly | src/tuya_ipc_p2p_sdk/transport/relay_framing.py:119-131 | One turn of the scan on any bytes: when the list ends, when it is truncated, and that the value under number two is the vector |
| RelayHandshake.OpenExactly | src/tuya_ipc_p2p_sdk/transport/relay_framing.py:132-135 | What the section gives: nothing without a vector or a seven, else what decrypts of the bytes its length says, or of those there are |
| RelayHandshake.ParseHandshakeFrame | src/tuya_ipc_p2p_sdk/transport/relay_framing.py:117-135 | The TLV loop ends on any bytes and computes the specified plaintext or error |
| RelayRouting.NonInterference | src/tuya_ipc_p2p_sdk/transport/relay_session.py:75-95 | After any interleaved arrivals each conversation is in the state its own arrivals alone lead to, and exists if and only if it did before or something arrived for it |
| RelayRouting.ClosedAll | src/tuya_ipc_p2p_sdk/transport/relay_session.py:151-152 | In the closed table every conversation is there and closed |
| RelayRouting.OneAckPerPush | src/tuya_ipc_p2p_sdk/transport/kcp_conversation.py:80-111 | In any run of a conversation, the acknowledgements it sent of each sequence and timestamp are as many as the pushes of them that arrived while it was open, handler or not |
| RelaySessions.RelaySession.RouteSegment | src/tuya_ipc_p2p_sdk/transport/relay_session.py:84-95 | The table becomes the routed table; the video future is resolved by the first segment of the video conversation unless it was given up before |
| RelaySessions.RelaySession.OnConnectionClosed | src/tuya_ipc_p2p_sdk/transport/relay_session.py:146-158 | The first time every conversation is closed, a waiter is let go and the close handler is called once; later calls change nothing |
| RelaySessions.RelaySession.AsyncClose | src/tuya_ipc_p2p_sdk/transport/relay_session.py:160-168 | Every conversation is closed, a waiter for the video let go, the close handler dropped without a call, and the connection closed |
| RelaySessions.RelaySession.SendTunnelFrame | src/tuya_ipc_p2p_sdk/transport/relay_session.py:107-144 | The frame goes out as one push per record, numbered on from earlier calls, and what the connection writes is grown by exactly their frames if it is up; a frame above 65535 bytes is refused and nothing is written |
| Tunnel.TunnelRoundTrip | src/tuya_ipc_p2p_sdk/transport/relay_session.py:107-122 | For any frame up to 65535 bytes each record is a vector and one to 82 blocks; decrypting all records, unpadding once and cutting by the 16-bit length gives the frame |
| Tunnel.PushExactly | src/tuya_ipc_p2p_sdk/transport/relay_session.py:132-143 | All fields of the push of the k-th record |
| Tunnel.BodyExactly | src/tuya_ipc_p2p_sdk/transport/relay_session.py:115-118 | The bytes that are padded: 00 01, the length high byte first, the frame, a NUL for an odd one |
| Tunnel.RecordsExactly | src/tuya_ipc_p2p_sdk/transport/relay_session.py:118-122 | The k-th record is the k-th vector and the k-th piece of 1312 bytes, or what is left, encrypted under it |
| TunnelStream.TunnelFrameArrives | src/tuya_ipc_p2p_sdk/transport/relay_session.py:107-144 | Byte for byte: what is written for any frame up to 65535 bytes is read off the stream as pushes of the signaling conversation with consecutive sequences, and their payloads decrypted, unpadded once and cut give the frame |
| Crypto.PaddedExactly | src/tuya_ipc_p2p_sdk/crypto.py:51-54 | One to sixteen bytes, each of them their number, up to a whole block |
| Crypto.UnpaddedExactly | src/tuya_ipc_p2p_sdk/crypto.py:57-66 | Unpadding succeeds exactly if the last byte is between 1 and 16 and there are as many such bytes at the end, and drops them |
| Crypto.RecordExactly | src/tuya_ipc_p2p_sdk/crypto.py:122-126 | A record is its vector followed by the padded plaintext encrypted under it, for keys of sixteen bytes |
| Crypto.DecryptedExactly | src/tuya_ipc_p2p_sdk/crypto.py:129-139 | Which records decrypt, under which vector and which bytes |
| Crypto.CbcExactly | src/tuya_ipc_p2p_sdk/crypto.py:80-92 | The same without the vector in front |
| Crypto.UnpadPad | src/tuya_ipc_p2p_sdk/crypto.py:51-66 | Padding gives non-empty whole blocks and unpadding undoes it |
| Crypto.PadUnpad | src/tuya_ipc_p2p_sdk/crypto.py:57-66 | On whole blocks, unpadding accepts exactly the padded messages |
| Crypto.CbcRoundTrip | src/tuya_ipc_p2p_sdk/crypto.py:80-92 | Decryption undoes encryption, over any length-keeping inverse pair |
| Crypto.RecordRoundTrip | src/tuya_ipc_p2p_sdk/crypto.py:122-139 | A record decrypts to its plaintext |
| Media.HeadsExactly | src/tuya_ipc_p2p_sdk/media.py:39-46 | Which markers head a packet and which bytes it is: distance, byte order and range of the length |
| Media.ExtractMediaPackets | src/tuya_ipc_p2p_sdk/media.py:28-49 | The marker loop ends on every record and computes the scan |
| MediaExactness.ExtractExactly | src/tuya_ipc_p2p_sdk/media.py:36-49 | For packets that do not continue themselves at a distance of 4 to 17 bytes: cutting their record gives back exactly them if and only if no marker before one of theirs heads something that reads as a packet, whatever their payloads contain |
| MediaExactness.RepeatingIsExtracted | src/tuya_ipc_p2p_sdk/media.py:36-49 | Two packets of which the second does repeat itself, given back although it was found in the wrong place |
| Media.ScanExactlyPacked | src/tuya_ipc_p2p_sdk/media.py:36-49 | For any packets of legal size: the scan finds them at the positions where they were packed if and only if no marker before one of theirs heads something that reads as a packet |
| Media.PackingCanBeMistaken | src/tuya_ipc_p2p_sdk/media.py:39-48 | Two packets of legal size, markers in place, whose record is not cut back into them: the frame id of the second is taken for a marker |
| Media.ExtractUnmistakable | src/tuya_ipc_p2p_sdk/media.py:36-49 | Extraction inverts packing wherever nothing can be mistaken |
| Media.ExtractPack | src/tuya_ipc_p2p_sdk/media.py:36-49 | Extraction inverts packing of packets whose prefix and header hold no marker, whatever their payloads contain |
| Media.ScanTakesLeast | src/tuya_ipc_p2p_sdk/media.py:39-48 | The scan takes the least position from the cursor on whose marker heads a packet, and goes on at that packet's end |
| Media.ScanFindsNone | src/tuya_ipc_p2p_sdk/media.py:39-41 | The scan finds nothing if and only if no marker from the cursor on heads a packet |
| Media.ScanWellFormed | src/tuya_ipc_p2p_sdk/media.py:43-48 | On any record, every packet found has its marker at +16, is preceded by its own length, and is of a size a packet can have |
| Media.ScanOrdered | src/tuya_ipc_p2p_sdk/media.py:46-49 | On any record the ends of the packets found strictly increase, and no marker lies inside an earlier packet |
| Jpeg.WriteExactly | src/tuya_ipc_p2p_sdk/jpeg_reassembler.py:34-37 | A packet asks for its bytes from 20 on at the offset in bytes 12 to 15, highest first; one of 20 bytes or fewer asks for nothing |
| Jpeg.PieceArrives | src/tuya_ipc_p2p_sdk/jpeg_reassembler.py:36-37 | The packet built for a piece of an image asks for that piece at its place |
| Jpeg.OffsetOf1400 | src/tuya_ipc_p2p_sdk/jpeg_reassembler.py:36 | The offset bytes 00 00 05 78 are 1400 |
| Jpeg.BeginsExactly | src/tuya_ipc_p2p_sdk/jpeg_reassembler.py:40 | A packet begins a frame exactly if its offset is zero and its payload starts with ff d8 |
| Jpeg.PutExactly | src/tuya_ipc_p2p_sdk/jpeg_reassembler.py:40-53 | Every byte of the buffer after a write, and its end; a write past 4 MiB is dropped, and one without a frame in progress ignored |
| Jpeg.FlushedExactly | src/tuya_ipc_p2p_sdk/jpeg_reassembler.py:56-66 | When there is a frame to hand back, and that it ends at the last ff d9 |
| Jpeg.CompletedExactly | src/tuya_ipc_p2p_sdk/jpeg_reassembler.py:39-46 | A packet hands back the frame in progress exactly if it begins another |
| Jpeg.WholeExactly | src/tuya_ipc_p2p_sdk/jpeg_reassembler.py:56-66 | What a whole image is, in bytes |
| Jpeg.BufferRefinesWrites | src/tuya_ipc_p2p_sdk/jpeg_reassembler.py:39-54 | After any packets and resets the buffer is the last-writer-wins rendering of the packets accepted since the frame in progress started, zero where none wrote, and the recorded end is its length |
| Jpeg.FramesAreWhole | src/tuya_ipc_p2p_sdk/jpeg_reassembler.py:56-66 | Every frame returned starts with SOI, ends with EOI and is 4 bytes to 4 MiB |
| Jpeg.FewerFramesThanStarts | src/tuya_ipc_p2p_sdk/jpeg_reassembler.py:39-46 | n frame starts from a fresh reassembler, resets included, return at most n-1 frames, and none return none |
| Jpeg.ImageComesBack | src/tuya_ipc_p2p_sdk/jpeg_reassembler.py:32-66 | From any prior state: the piece at offset zero once and first, then the others in any order and any number of times, and the next frame start returns exactly the image |
| Jpeg.ImagesComeBack | src/tuya_ipc_p2p_sdk/jpeg_reassembler.py:32-66 | For a stream of images all but the last come back, in order, and the last is in progress |
| JpegReassembly.JpegReassembler.Push | src/tuya_ipc_p2p_sdk/jpeg_reassembler.py:32-54 | The buffer is extended and overwritten as specified and the completed frame returned |
| StreamSession.ImagesArePublished | src/tuya_ipc_p2p_sdk/stream_session.py:262-277 | From records to frames: any images, each cut into pieces in any way, as packets with big-endian offset, marker and bytes of the image, packed into encrypted records in any grouping in which none can be mistaken, with unreadable or control records in between and packets that begin no frame in front, are published in order, all but the last, and the frame counter counts them |
| StreamSession.LateImagesArePublished | src/tuya_ipc_p2p_sdk/stream_session.py:262-277 | Missing the first records, however they cut the images: those that began in them are lost, and those after them published, all but the last |
| Jpeg.LateImagesComeBack | src/tuya_ipc_p2p_sdk/jpeg_reassembler.py:32-66 | A stream of images joined at any write: the images whose start was missed are lost whole, one that was cut in two included, and of those after them all but the last come back |
| StreamSession.ControlExactly | src/tuya_ipc_p2p_sdk/control.py:98-103 | A plaintext is control exactly if it has eight bytes and starts with 78 56 34 12 |
| StreamSession.MediaIsNotControl | src/tuya_ipc_p2p_sdk/control.py:98-103 | A record of packed packets is never taken for control |
| StreamSession.MediaSession.OnMediaRecord | src/tuya_ipc_p2p_sdk/stream_session.py:262-277 | The packet loop publishes and counts the frames the record completes; a record that does not decrypt or is control changes nothing |
| Supervision.RefusalsAreBusyOutcomes | src/tuya_ipc_p2p_sdk/camera_stream.py:245-263 | The refusal count is the busy outcomes since the last streamed or failed one, quiet sessions in between or not; with no such outcome it goes on from what earlier loops left |
| Supervision.RunStartIsUnique | src/tuya_ipc_p2p_sdk/camera_stream.py:258-263 | Every history has exactly one point such a run of refusals counts from |
| Supervision.NotifiedOnFlips | src/tuya_ipc_p2p_sdk/camera_stream.py:245-263 | Every turn of the loop notifies exactly when `needs_power_cycle` changes, from every state, if and only if the limit is at least one |
| Supervision.NoticesAlternate | src/tuya_ipc_p2p_sdk/camera_stream.py:245-263 | Over a whole loop the notices alternate, starting with the opposite of the initial value, and their parity is the current value |
| Supervision.WaitsOfALoop | src/tuya_ipc_p2p_sdk/camera_stream.py:233-243 | Each wait of a loop is the long one exactly when the limit is reached, otherwise cooldown plus the delay of the number of turns since the last that streamed |
| Supervision.TurnExactly | src/tuya_ipc_p2p_sdk/camera_stream.py:229-263 | One turn: what each outcome does to the refusals, the notice, the wait and the backoff |
| Supervision.WaitsDouble | src/tuya_ipc_p2p_sdk/camera_stream.py:214-243 | The first wait of a loop and one after a stream is cooldown + retry_min, any other twice the delay before it, capped, as long as neither is the long one |
| Supervision.WaitsAreCappedIff | src/tuya_ipc_p2p_sdk/camera_stream.py:214-243 | Every wait of every loop that is not the long one is cooldown + min(retry_min * 2^k, retry_max) if and only if retry_min is at most retry_max, or the limit is zero or less and every wait is the long one |
| CameraStreams.CameraStream.Supervise | src/tuya_ipc_p2p_sdk/camera_stream.py:212-243 | The loop over any outcomes leaves the refusal count, the notices and the waits of the specification |
| CameraStreams.CameraStream.TakeTurn | src/tuya_ipc_p2p_sdk/camera_stream.py:229-243 | One turn after a session: refusals, notice, wait and next backoff as specified |
| CameraStreams.CameraStream.NoteRefusal | src/tuya_ipc_p2p_sdk/camera_stream.py:245-256 | One more refusal, and a notice exactly at the limit |
| CameraStreams.CameraStream.ClearRefusals | src/tuya_ipc_p2p_sdk/camera_stream.py:258-263 | No refusals, and a notice exactly if the camera needed a power cycle |
| FanOut.EveryConsumerIsSound | src/tuya_ipc_p2p_sdk/camera_stream.py:195-210 | In every interleaving of publications, subscriptions, reads, departures and closings: each queue is the last frames its consumer was given, at most two, all published since it subscribed; a consumer is handed published frames once each, in strictly increasing order, starting with the last before it subscribed; every frame given is handed over, dropped or queued, a queue holds all frames given since the last one handed over or the last two, and a consumer that dropped none saw consecutive frames |
| FanOut.ReadsAreFresh | src/tuya_ipc_p2p_sdk/camera_stream.py:207-208 | Any queued read by a subscriber returns one of the two newest frames |
| CameraStreams.CameraStream.OnFrame | src/tuya_ipc_p2p_sdk/camera_stream.py:325-340 | One frame becomes the last one, feeds the motion detector, reaches every subscriber's queue, dropping the oldest of a full one, sets the first-frame event, and notifies listeners when the stream was not live or motion changed |
| CameraStreams.CameraStream.ReadFrom | src/tuya_ipc_p2p_sdk/camera_stream.py:207-208 | A read takes the oldest queued frame, which is one of the two newest published, and waits on an empty queue |
| CameraStreams.CameraStream.Subscribe | src/tuya_ipc_p2p_sdk/camera_stream.py:202-206 | A new iteration has an empty queue and hands over the last frame there was, if any |
| Motion.Difference | src/tuya_ipc_p2p_sdk/motion_detector.py:99 | The change in size relative to the earlier size |
| Motion.ThresholdExactly | src/tuya_ipc_p2p_sdk/motion_detector.py:106-108 | A difference is above the threshold exactly if it exceeds 1.5% and the typical difference times the sensitivity |
| Motion.TypicalExactly | src/tuya_ipc_p2p_sdk/motion_detector.py:108-115 | Past the warm-up a loud reading leaves the typical difference alone and a quiet one moves it by a twentieth of the way |
| Motion.SampleExactly | src/tuya_ipc_p2p_sdk/motion_detector.py:92-117 | One frame: what is remembered, counted, held, taught and published, for first and empty frames, during the warm-up and past it |
| Motion.PollExactly | src/tuya_ipc_p2p_sdk/motion_detector.py:119-138 | A poll compares the clock with the end of the hold; a reset forgets all and withdraws |
| Motion.DetectedIffHeld | src/tuya_ipc_p2p_sdk/motion_detector.py:106-128 | With a monotone non-negative clock, motion is reported if and only if the hold of some confirming reading since the reset (two successive comparisons past the warm-up, each above its threshold) was running when the state was last published |
| Motion.RisesOnConfirmation | src/tuya_ipc_p2p_sdk/motion_detector.py:107-128 | The report is turned on only by a frame whose comparison confirms the one before it, never by a poll or a reset |
| Motion.UnconfirmedReportIff | src/tuya_ipc_p2p_sdk/motion_detector.py:117-121 | With any clock: while no reading since the reset confirms, motion is reported if and only if the clock was below zero when the state was last published |
| Motion.NegativeClockReportsMotion | src/tuya_ipc_p2p_sdk/motion_detector.py:119-121 | The shortest such report: the first poll of an idle detector with the clock below zero |
| Motion.CallbacksAlternate | src/tuya_ipc_p2p_sdk/motion_detector.py:123-128 | The callbacks are True, False, True, ..., and the reported state is their parity |
| Motion.WarmUpIsMean | src/tuya_ipc_p2p_sdk/motion_detector.py:101-104 | During the warm-up the typical difference is the mean of the readings |
| Motion.TypicalStaysInRange | src/tuya_ipc_p2p_sdk/motion_detector.py:102-115 | The typical difference stays between the least and the largest difference learnt (the warm-up and the quiet ones), never below zero |
| Motion.StateTracksReadings | src/tuya_ipc_p2p_sdk/motion_detector.py:92-138 | After any samples, polls and resets every field is the measure of the readings since the reset it stands for |
| MotionDetection.MotionDetector.Sample | src/tuya_ipc_p2p_sdk/motion_detector.py:92-117 | The method makes the specified state, with its two early returns |
| MotionDetection.MotionDetector.Reset | src/tuya_ipc_p2p_sdk/motion_detector.py:130-138 | Everything learnt is forgotten and held motion withdrawn |

## Left out

- Sequence numbers past 2^32: the peer would drop everything after the wrap, and no result is claimed there.
- Handlers that call back into a conversation, and a connection write that raises in the middle of a call.
- Wrong key and vector lengths, which the cryptography library refuses, and what AES, HMAC and the random source are: they are parameters.
- RelaySessions.RelaySession.AsyncClose: closes all conversations in one step. The source awaits each one that has a retransmit task, so segments can be routed in between; one for a new conversation changes the dictionary being iterated, which raises before the connection is closed.
- RelayHandshake.ParseHandshakeFrame: returns the decrypted message and does not decode it as JSON, which is library code; the four-message exchange that uses it is not modelled either.
- asyncio: tasks, cancellation, timeouts and sockets. The retransmit task is the flag `retransmitTask` and its turns are steps; a read loop that is cancelled is one that finds the connection closed; a stream is the bytes that arrive until it ends.
- The update of the reassembly buffer byte by byte: `JpegReassembler` reassigns a sequence, so aliasing of the buffer is not captured; nothing else holds it.
- The stall watcher, the waiters for the first frame, and the session attempts themselves: an attempt is its outcome.
- Restarting the motion detector with another sensitivity.
- The waits of the supervising loop are numbers; being woken from one early ends the list of outcomes.
- Control messages beyond telling them from media, and the start sequence: straight-line byte strings.
- The HTTP gateway, login, signing, device listing, MQTT client and SDP builders: network clients around short string assembly.
- The ICE responder: fixed-size STUN messages.
- Logging, exception messages, data classes without behaviour, examples.
