# fort-agent: a Dafny model of the serial/UDP CoAP bridge

The agent joins UDP clients, a CoAP server on the far side of a serial line, and
a JAUS vehicle. This project models four connected parts of it in Dafny and
proves what they promise.

* **CoAP codec.** The message builder with its delta-encoded options, and the
  two hand-written readers, each compared with a decoder written from sections 3
  and 3.1 of RFC 7252 (the Observe option is RFC 7641, section 2).
* **Port tracker.** Requests get a CRC-8 marker and the client's port in front of
  their token, in place; responses give it back; everything else is routed by a
  map from message ID to port whose entries expire after 250 seconds.
* **SLIP and the serial queue.** The RFC 1055 framing with its self-synchronising
  receiver, and a 512-byte ring buffer drained by asynchronous writes.
* **Joystick integrity and vehicle control.** The CRC-16 of the combined report,
  the bridge's message queue, the JAUS client's request flags, and the vehicle
  state machine against a peer that may answer anything at any time.

They meet in two places: `Routing` is the whole path from a UDP client to the
serial peer and back as one state machine, and `WakeUp` interleaves the service
thread, the joystick thread and the JAUS middleware, down to the write of the
pending flag behind a send and the two halves of a callback.

## Layout

| file | what it holds |
|---|---|
| Bytes, Bits, Polynomials | machine integers; exclusive or on integers; division of polynomials, which both checksums are |
| Slip, SlipHandler | framing and receiver on values; the two encoders and the receiver as written |
| CircularBuffer, SerialQueue, SerialHandler | the ring; the transmit queue as a state machine; the class |
| Coap, CoapWriter, CoapRoundTrip, BuiltMessage | header fields and the RFC decoder; the builder; round trip and uniqueness; what a built message says, field by field |
| CoapReaders, PathAgreement | the two hand-written readers and exactly when they agree with the decoder |
| Tracker, CoapPortTracker, MidHistory | tagging and routing on values; the class; the map over whole runs |
| Forwarding, Routing, RoutingRuns, InboundRouting, UartCoapBridge | remote host or JAUS side; end-to-end routing; runs that ask and answer, and the MID fallback in them; where everything else from the line goes; how the bridge class composes the parts |
| Crc16, CrcPolynomial, Report | the CRC and its algebra; the polynomial it divides by; acceptance of a combined report |
| JausClient, WrenchEffort, Vehicle, VehicleHistory, VehicleStateMachine | the request flags; sticks to efforts; the vehicle as a reactive machine; its flags and calls from the history; the state objects |
| BridgeQueue, JausBridge | the queue and its filter; the class |
| WakeUp, BridgeRuns | all threads interleaved: wake-ups and the pending flag; what precedes a wrench effort, and how the loop stops |

`Slip`, `SerialQueue`, `Tracker`, `Vehicle` and `BridgeQueue` describe behaviour
as functions on values. The classes and loops of the C++ are methods with the
same fields, branches and constants, each proved to compute exactly those
functions, and the results over runs are proved about the functions. Time is an
integer parameter in nanoseconds; what the environment does (which write
completes, how far, when a timer fires, what the vehicle answers) is an argument
of the step it affects.

## What the code does not keep

Some promises hold only under a condition; the lemmas below give it.

* A UDP client on a port from 901 to 944 never gets an answer: the bridge takes
  the port for one of the JAUS side's own and hands the payload there. `EndToEnd`
  gives the exact condition; `JausPortClientUnserved` is such a run.
* A wake-up of the vehicle state machine can be lost. `requestPending` is written
  after the message has gone out; a callback in between leaves the flag set with
  nothing to clear it, and the next request is withheld (`WakeUpLost`). That is the
  exact condition (`WakeUpExactly`), and only another callback helps
  (`StuckUntilCallback`).
* The states promise an operator's press before control is asked for and before the
  vehicle is resumed. They react to any response, so one press, in Initialize, is
  enough for Ready (`ReadyExactly` gives the exact condition, `OnePressIsEnough` a
  run of all threads in which no Resume is ever sent).
* `asyncSendMessageToSerialPort` builds the frame in `cmd[512]` without a bound. A
  message is written past its end exactly when it is not refused and has, with its
  END and ESC bytes counted twice, more than 510 bytes (`OverrunExactly`); every
  taggable request of 509 bytes does it on an empty queue (`LongestRequestOverruns`).
* The same function compares the free space with the unencoded length, so it can
  accept a message and queue only the head of its frame. The frame is whole exactly
  when the encoded frame fits (`WholeFrameQueued`; `AcceptedButCut` is a run).
* An untagged request whose own token passes the marker check gets its response
  routed by token bytes; the exact condition is in `UntaggedRequestRouted`, such a
  request in `LookalikeToken`.
* The tracker's header says tokens of more than 5 bytes are not extended; the
  code's test is `tokenLength < 5`, and the model follows the code.
* `parseObserveReply` skips options by the low nibble alone. It finds the payload
  exactly when that skipping stops at the marker (`ReplyAgreesExactly`); with an
  extended length it can take a value byte for the marker
  (`ReplyMisreadsExtendedLength`).
* `extractUriPath` keeps deltas and lengths in `uint8_t`. On a message of up to 512
  bytes that has a path, the result is right exactly when no segment exceeds 255
  bytes, the step to the first option behind the path is no multiple of 256, and no
  longer value there leads the reader out of the buffer (`PathAgreesExactly`; for built messages
  `PathRoundTripExactly`). A 256-byte segment can read as an empty path
  (`LongSegmentMisread`), option 267 as a path (`WideStepMisread`), and a GET with one
  256-byte query makes the reader read past the end (`LongQueryLeadsOut`).
* A SLIP message longer than the 512-byte receive buffer is cut, not refused: each
  overflow discards 513 bytes, and what is left at the end is delivered as a message
  of its own if it has at least 2 bytes, and vanishes otherwise (`FrameHandsOn`; of
  513 or 514 bytes nothing arrives, of 515 the last two, `OverlongMessages`).
* `JAUSClientImpl` reports the heartbeat as always alive, so Emergency is never
  entered with it (`AliveNeverEmergency`). Nothing in the program calls the state
  machine's `update()` either; the model allows it at any time.
* `encodeUintOption` alone would not use the shortest form from 0x10000 to 0xFFFFFF
  (`UintEncodingShortest`). No caller reaches that range: every option that
  `buildMessage` writes is in its shortest form (`BuiltUintsShortest`).

## Model

| member | source | states |
|---|---|---|
| Slip.FrameShape | src/slip.cpp:8-34 | a frame has length n + 2 + the number of END and ESC bytes, and END only at its two ends |
| Slip.UnescapeIffEscaped | src/slip.cpp:101-118 | a piece of the line un-escapes (RFC 1055) to m exactly when it is the escaped form of m |
| Slip.FrameFromAnyState | src/slip.cpp:59-123 | a frame arriving in any receiver state acts as one END, then hands on what the bounded buffer keeps of the message, and leaves the receiver initial |
| Slip.FrameDeliversExactly | src/slip.cpp:59-123 | a frame hands on exactly its message if and only if the message has 2 to buf_size bytes |
| Slip.FrameHandsOn | src/slip.cpp:59-123 | the frame of a message of n bytes, of any length, hands on the last n mod (buf_size + 1) bytes if they are at least 2, else nothing |
| Slip.OverlongMessages | src/slip.cpp:59-99 | of 513 or 514 bytes the agent is handed nothing, of 515 the last two |
| Slip.WireBytes | src/slip.cpp:8-34 | END is 0xC0 and ESC 0xDB, followed by 0xDC or 0xDD; the agent receives messages of 2 to 512 bytes |
| Slip.CodesExactly | src/slip.cpp:59-123 | overflow is reported exactly for a byte too many, an unknown escape exactly for a byte other than 0xDC and 0xDD behind ESC; both drop what was held |
| Slip.Resynchronises | src/slip.cpp:59-123 | after any garbage from any state, frames deliver what the garbage and one END deliver, then every message in order |
| Slip.FrameDeliveredInStream | src/slip.cpp:59-123 | wherever a frame stands in a stream, its closing END hands on its message |
| Slip.BufferNeverOverflows | src/slip.cpp:59-73 | over every byte stream the receive size stays within buf_size |
| Slip.DeliveriesAreSound | src/slip.cpp:75-123 | anything handed on has 2 to buf_size bytes and is the un-escaping of an END-free run of the stream that an END follows |
| Slip.DeliveriesByPosition | src/slip.cpp:75-123 | a stream's deliveries are those of its single bytes, in order, and nothing else |
| SlipHandler.CreateSlipEncodedMessage | src/slip.cpp:8-34 | writes exactly the frame into the buffer and nothing behind it; refuses more than 512 bytes with length 0 |
| SlipHandler.WriteEncodedByte | src/slip.cpp:125-149 | emits the escaped byte, or the part of it before the writer failed |
| SlipHandler.SlipSendMessage | src/slip.cpp:151-173 | emits the same frame as the other encoder; reports an error exactly when the writer failed, having emitted a strict prefix |
| SlipHandler.SlipReceiver.ResetRx | src/slip.cpp:38-43 | returns the receiver to its initial state |
| SlipHandler.SlipReceiver.PutByteToBuffer | src/slip.cpp:59-73 | stores the byte, or resets with an overflow when the buffer is full |
| SlipHandler.SlipReceiver.SlipReadByte | src/slip.cpp:75-123 | one byte takes the receiver through exactly one step of the receiving rule, with its delivery and return code |
| CircularBuffer.Ring.PushBack | src/serialHandler.cpp:97-101 | appends a byte to the logical contents (a full ring drops its oldest) and moves no other byte |
| CircularBuffer.Ring.EraseBegin | src/serialHandler.cpp:129 | drops exactly the first n bytes of the logical contents |
| CircularBuffer.Ring.ArrayOne | src/serialHandler.cpp:107-109 | the first contiguous region is a prefix of the contents, non-empty when the ring is |
| SerialQueue.Conservation | src/serialHandler.cpp:52-140 | over every run of sends, partial completions and errors, confirmed bytes followed by the contents are all accepted bytes in order, and the outstanding write covers a prefix of the contents |
| SerialQueue.ConfirmedExactly | src/serialHandler.cpp:119-140 | over every run the confirmed bytes are the head of the accepted ones, as long as the completions say, and the queue is the rest; a write error loses none |
| SerialQueue.IdleExactly | src/serialHandler.cpp:103-140 | over every run no write is outstanding exactly when the queue is empty or the latest event that touched it was a write error |
| SerialQueue.WholeFrameQueued | src/serialHandler.cpp:61-82 | a message that is not refused is queued as a whole frame if and only if its encoded frame fits the free space; otherwise as a prefix of it |
| SerialQueue.AcceptedButCut | src/serialHandler.cpp:61-82 | a run of two sends in which the second message is accepted and only two bytes of its frame are queued |
| SerialQueue.OverrunExactly | src/serialHandler.cpp:72-76 | a message that is not refused needs more than the 512-byte command buffer exactly when its length plus its END and ESC bytes exceed 510 |
| SerialQueue.AcceptedIsFrames | src/serialHandler.cpp:52-117 | if no frame was cut, the accepted bytes are the frames of the queued messages in order |
| SerialQueue.LineCarriesMessages | src/serialHandler.cpp:52-140 | once such a run has drained, a receiver on the line has been handed exactly the queued messages in order |
| SerialHandler.Handler.StartWrite | src/serialHandler.cpp:104-114 | a write is started only when none is outstanding, on a non-empty prefix of the contents |
| SerialHandler.Handler.AsyncSendDataToSerialPort | src/serialHandler.cpp:90-117 | queues as many bytes as fit, keeps an outstanding region intact, and has a write outstanding afterwards |
| SerialHandler.Handler.AsyncSendMessageToSerialPort | src/serialHandler.cpp:52-88 | is one Send step of the queue; returns true exactly when operational and the unencoded length fits; None exactly where the C++ writes past its command buffer |
| SerialHandler.Handler.AsyncWriteToSerialPortCb | src/serialHandler.cpp:119-140 | is one Complete or Fail step of the queue and keeps its invariant |
| SerialHandler.Handler.OnRead | src/serialHandler.cpp:151-188 | feeds exactly the bytes read to the SLIP receiver, loses none, and yields its deliveries in order |
| Coap.SetTokenLength | src/coapHelpers.cpp:15-22 | replaces the low nibble of the first byte, refusing lengths above 8 |
| Coap.ResetMessageMeaning | src/coapHelpers.cpp:78-90 | the reset message decodes to an empty RST message with the given MID and nothing else |
| Coap.HeaderLayout | src/coapHelpers.cpp:7-76 | version, type, token length, code classes, MID and token stand in the bytes where section 3 of RFC 7252 puts them |
| CoapWriter.EncodeOption | src/coapHelpers.cpp:93-132 | appends one option: header, extensions and value, with the 16-bit truncations of the code |
| CoapWriter.EncodeUintOption | src/coapHelpers.cpp:134-179 | appends one unsigned option in 0, 1, 2 or 4 big-endian bytes |
| CoapWriter.BuildMessage | src/coapHelpers.cpp:187-242 | header, token, options in order of number, and a payload only for a non-empty POST |
| CoapRoundTrip.HeaderBack | src/coapHelpers.cpp:97-128 | no written option header starts with 0xFF, and it is read back whole with its length cut to 16 bits |
| CoapRoundTrip.OptionsOrdered | src/coapHelpers.cpp:213-233 | the numbers written never decrease, so no delta underflows |
| CoapRoundTrip.OptionsBack | src/coapHelpers.cpp:93-132 | any ordered option list is decoded back, in front of any continuation |
| CoapRoundTrip.LongValueLost | src/coapHelpers.cpp:100-128 | a value over 65535 bytes, anywhere in the list, is never decoded back |
| CoapRoundTrip.MessageRoundTrip | src/coapHelpers.cpp:187-242 | decoding a built message gives exactly the request's type, code, MID, token, options and payload if and only if the token has at most 8 bytes and every segment and query at most 65535 |
| BuiltMessage.RequestReadBack | src/coapHelpers.cpp:187-242 | decoding a built message gives code 0x01 or 0x02, the payload for a POST and none for a GET, the segments as the values of option 11 and the queries as those of 15 in order, option 6 exactly with an observe value, option 12 exactly with a format other than 0xFFFF, and no other option |
| BuiltMessage.HeaderWritten | src/coapHelpers.cpp:197-211 | the first bytes of a built message are version 1, the type and the token length, the code, the MID high byte first, and the token |
| BuiltMessage.LengthForms | src/coapHelpers.cpp:100-128 | a value of fewer than 13, fewer than 269, or more bytes has its length in the nibble, in one more byte, or in two |
| BuiltMessage.DeltaForms | src/coapHelpers.cpp:100-128 | the same three forms for the step to an option's number |
| CoapRoundTrip.DecodeInjective | src/coapHelpers.cpp:93-242 | two messages that the decoder reads alike are the same bytes |
| CoapRoundTrip.BuiltIffMeans | src/coapHelpers.cpp:187-242 | bytes are what the builder writes for a request exactly when they decode to what the request means |
| CoapRoundTrip.UintBytesValue | src/coapHelpers.cpp:147-178 | the value bytes of an unsigned option are its big-endian digits |
| CoapRoundTrip.UintEncodingShortest | src/coapHelpers.cpp:147-153 | the helper's encoding is the shortest if and only if the value is outside 0x10000 to 0xFFFFFF |
| CoapRoundTrip.BuiltUintsShortest | src/coapHelpers.cpp:216-228 | every Observe and Content-Format value of a built message has the request's value and is in its shortest form |
| CoapReaders.ParseObserveReply | src/coapHelpers.cpp:245-275 | terminates on every buffer; returns MID, token and the bytes behind the marker that skipping by low nibbles reaches |
| CoapReaders.ReplyAgreesExactly | src/coapHelpers.cpp:245-275 | on every well-formed message the reply equals the decoder's MID, token and payload if and only if skipping the option bytes by low nibbles stops at the payload marker (without a payload: not before the last byte) |
| CoapReaders.ReplyAgrees | src/coapHelpers.cpp:245-275 | option steps and lengths of at most 12 are enough for that, whatever the values and the payload hold |
| CoapReaders.ReplyMisreadsExtendedLength | src/coapHelpers.cpp:262-267 | a well-formed message with an extended length whose payload is misread |
| CoapReaders.ExtractUriPath | src/coapPortTracker.cpp:18-64 | the joined segments the reader collects with its 8-bit and 16-bit arithmetic, or None where it would read outside the buffer |
| PathAgreement.PathAgreesExactly | src/coapPortTracker.cpp:18-64 | on every well-formed message with at most 512 bytes behind the token and options before Uri-Path of at most 255 bytes, the path is the decoder's Uri-Path values joined by "/" if and only if each of them has at most 255 bytes, the reader takes the first option behind the path for one behind it, and it stays inside the buffer |
| PathAgreement.PathAgrees | src/coapPortTracker.cpp:18-64 | on well-formed messages of any size, steps and lengths of at most 255 are enough for that |
| PathAgreement.PathRoundTripExactly | src/coapPortTracker.cpp:18-64 | the path of a built message of at most 512 bytes is its segments joined by "/" if and only if every segment has at most 255 bytes and the reader stays inside the buffer |
| PathAgreement.PathRoundTrip | src/coapPortTracker.cpp:18-64 | for segments and queries of at most 255 bytes the path of a built message of any size is its segments joined by "/" |
| PathAgreement.NoMorePath | src/coapPortTracker.cpp:26-48 | past Uri-Path the reader's wrapping 16-bit number never comes back to it within 512 bytes |
| PathAgreement.LongSegmentMisread | src/coapPortTracker.cpp:40-45 | a 256-byte segment starting with 0xFF reads as an empty path |
| PathAgreement.WideStepMisread | src/coapPortTracker.cpp:33-38 | a well-formed message without a path, whose option 267 is read as one |
| PathAgreement.LongQueryLeadsOut | src/coapPortTracker.cpp:28-56 | a GET without a path and with one 256-byte query is well-formed and makes the reader read past the end |
| PathAgreement.ReservedNibbleRead | src/coapPortTracker.cpp:28-46 | the reserved nibble 15, which the decoder refuses, is read as a step or length of 15 |
| PathAgreement.PathOfAnyBytes | src/coapPortTracker.cpp:18-23 | fewer than 4 bytes have no path, and of the header only the low nibble of the first byte is looked at |
| Tracker.MarkerDetectsOneByte | src/coapPortTracker.cpp:139-143 | two valid marker-and-port triples never differ in exactly one byte |
| Tracker.MarkerIsRemainder | src/coapPortTracker.cpp:139-143 | the marker is the remainder, and the only one, of the two port bytes, low byte first, shifted up by 8, on division by x^8 + x^2 + x + 1 |
| Tracker.TagLayout | src/coapPortTracker.cpp:178-183 | a tag is marker, port low, port high, and a token has one exactly when it starts with the tag of some port |
| Tracker.SentExactly | src/coapPortTracker.cpp:158-237 | a message goes on exactly if it is CoAP and fits; with the tag before its token exactly if it is a request with a token of at most 4 bytes and room for 3 more; else unchanged |
| Tracker.WithTokenKeeps | src/coapPortTracker.cpp:176-194 | replacing a token keeps type, code, MID and body, and putting the old one back restores the message |
| Tracker.TaggingPreservesMeaning | src/coapPortTracker.cpp:170-207 | a tagged request decodes to the same message (or the same error) with the tag before its token; it is 3 bytes longer, within maxLen, with a token of at most 7 |
| Tracker.TaggedResponseRouted | src/coapPortTracker.cpp:254-274 | a response whose token is tagged goes to that port whatever the MID map holds, with the original token and nothing else changed |
| Tracker.UntagRestores | src/coapPortTracker.cpp:174-194 | untagging a tagged message restores it byte for byte |
| Tracker.UntaggedRequestRouted | src/coapPortTracker.cpp:208-213 | an untaggable request is sent unchanged and tracked; its response returns unchanged to the mapped port if and only if its token does not pass for a tag |
| Tracker.LookalikeToken | src/coapPortTracker.cpp:254-274 | a GET with five zero token bytes is sent untagged, and a response with that token goes to port 0, three bytes shorter |
| CoapPortTracker.PortTracker.TrackMid | src/coapPortTracker.cpp:99-117 | the MID maps to this port with this time, whatever was there; other entries stay |
| CoapPortTracker.PortTracker.RemoveOldMids | src/coapPortTracker.cpp:75-87 | erases exactly the entries of age 250 s or more |
| CoapPortTracker.PortTracker.Clear | src/coapPortTracker.cpp:312-314 | empties the map |
| CoapPortTracker.PortTracker.InsertTag | src/coapPortTracker.cpp:176-194 | the in-place shift and byte writes produce the message with the tag before its token; bytes behind are untouched |
| CoapPortTracker.PortTracker.RemoveTag | src/coapPortTracker.cpp:263-271 | the in-place shift produces the message without the first three token bytes |
| CoapPortTracker.PortTracker.UdpToSerial | src/coapPortTracker.cpp:158-237 | buffer, length and map become exactly what the outbound rule says; errors change nothing |
| CoapPortTracker.PortTracker.SerialToUdp | src/coapPortTracker.cpp:239-310 | port, buffer and length are exactly what the inbound rule says; errors change nothing |
| MidHistory.LookupIsHistory | src/coapPortTracker.cpp:75-117 | over every run of tracks, sweeps and clears a MID is mapped exactly when its latest track since the last clear was never found 250 s old by a sweep, and the entry is that track |
| MidHistory.YoungEntryKept | src/coapPortTracker.cpp:75-117 | with a clock that never runs back, an entry younger than 250 s is not lost |
| MidHistory.SweepLeavesNoneOld | src/coapPortTracker.cpp:75-87 | right after a sweep no entry is 250 s old |
| MidHistory.FallbackRouting | src/coapPortTracker.cpp:275-289 | over a whole run, a response to a MID tracked less than 250 s ago goes unchanged to the latest tracked port if and only if its token does not pass for a tag |
| Forwarding.TaggedResponseForwarded | src/uartCoapBridge.cpp:75-118 | a response with a tagged token goes to that port with the original token, or, for a JAUS port, gives its payload to the JAUS side only |
| Forwarding.JausReplyPayload | src/uartCoapBridge.cpp:90-102 | a reply to the agent's own request reaches the JAUS side with the payload the decoder sees if and only if skipping by low nibbles stops at the marker; short options are enough |
| Routing.EligibleRequestQueued | src/uartCoapBridge.cpp:152-199 | a request with a token of at most 4 bytes, room for 3 more and a frame that fits is tagged, framed and queued whole |
| Routing.RequestsAreHeard | src/uartCoapBridge.cpp:271-299 | in every reachable state the peer has heard each request whose frame is on the line, exactly as tagged or, if untaggable, unchanged |
| Routing.StepKeeps | src/uartCoapBridge.cpp:75-118 | every step of clients, writes, errors, sweeps, clears, answers, noise and reads keeps the routing invariant |
| Routing.EndToEnd | src/uartCoapBridge.cpp:75-118 | over every interleaving, for an answer to a tagged request that the agent has read exactly one message went out: the answer with the client's token and the rest unchanged for the port of the client it answers if and only if that is no JAUS port, else its payload to the JAUS side |
| RoutingRuns.AnswerReachesClient | src/uartCoapBridge.cpp:75-189 | for any port and any taggable request whose frame fits there is a run that asks it and in which exactly that message goes out |
| RoutingRuns.UntaggedAnswerReachesClient | src/uartCoapBridge.cpp:75-189 | so there is for an untaggable request whose token does not pass for a tag; its answer goes out unchanged |
| RoutingRuns.JausPortClientUnserved | src/uartCoapBridge.cpp:92-105 | a run in which the client on UDP port 901 is answered and the remote host is sent nothing |
| RoutingRuns.MapIsHistory | src/coapPortTracker.cpp:158-237 | the MID map of the running bridge is the one its tracks, sweeps and clears give |
| RoutingRuns.FallbackEndToEnd | src/coapPortTracker.cpp:275-289 | in every run, a response read to its end whose MID was last tracked less than 250 s ago goes unchanged to that port if and only if its token does not pass for a tag and the port is no JAUS port |
| RoutingRuns.UntaggedRequestQueued | src/coapPortTracker.cpp:208-213 | an untaggable request whose frame fits is queued whole and unchanged, and tracked |
| RoutingRuns.UntaggedTracked | src/coapPortTracker.cpp:208-213 | over every run each untaggable request that was queued whole has a track of its MID for its port |
| RoutingRuns.UntaggedEndToEnd | src/coapPortTracker.cpp:275-289 | in every run, the peer's answer to an untaggable request, with its MID last tracked less than 250 s ago, goes unchanged to the client if and only if that track is the client's, its token does not pass for a tag and its port is no JAUS port |
| InboundRouting.UnmarkedGoesToTracked | src/coapPortTracker.cpp:275-303 | over every run, an Empty message, or a response whose token does not pass for a tag, whose MID was last tracked less than 250 s ago goes unchanged to that port if and only if it is no JAUS port |
| InboundRouting.UnmarkedGoesToDefault | src/coapPortTracker.cpp:275-303 | without a live track of its MID such a message goes to the default port |
| InboundRouting.RequestGoesToDefault | src/coapPortTracker.cpp:247-253 | over every run a request from the serial side goes to the default port, whatever its token and MID |
| InboundRouting.ReservedGoesNowhere | src/coapPortTracker.cpp:304-309 | over every run a message of code class 1, 6 or 7 is sent nowhere |
| InboundRouting.TracksExactly | src/coapPortTracker.cpp:158-237 | a MID is remembered exactly for requests that cannot be tagged, confirmable requests and responses, and Empty messages |
| InboundRouting.AckRouted | src/coapPortTracker.cpp:158-310 | a run: after a first message from a client, an Empty message with its MID goes back to the client exactly when the MID was remembered, else to the default port |
| UartCoapBridge.Bridge.ReceiveFromRemote | src/uartCoapBridge.cpp:171-189 | a datagram takes tracker and transmit queue through one client step, or overruns the command buffer exactly when the queue says so |
| UartCoapBridge.Bridge.SendSRCRequest | src/uartCoapBridge.cpp:271-299 | the agent's own request does the same under its JAUS port |
| UartCoapBridge.Bridge.SerialDataReceived | src/uartCoapBridge.cpp:75-118 | a received message is dropped, sent to the tracker's port, or given to the JAUS side with its payload |
| UartCoapBridge.TaggingKeepsPathAndPayload | src/coapPortTracker.cpp:170-207 | the URI path and the payload are read from a tagged request as from the original |
| UartCoapBridge.LongestRequestOverruns | src/serialHandler.cpp:72-76 | every taggable request of 509 bytes overruns the command buffer on an empty queue |
| Crc16.ComputeCrc16 | src/uart/FORTJoystick/FORTJoystickHelpers.cpp:85-97 | the nested loop computes the register that the shift step defines |
| CrcPolynomial.CrcIsRemainder | src/uart/FORTJoystick/FORTJoystickHelpers.cpp:85-97 | for every message the CRC, read from its other end, is the remainder, and the only one, of the message polynomial shifted up by 16 on division by x^16 + x^15 + x^2 + 1 |
| CrcPolynomial.CheckValues | src/uart/FORTJoystick/FORTJoystickHelpers.cpp:85-97 | the CRC of 0x80 is 0xA001, that of the digits 123456789 is 0xBB3D |
| Crc16.ShiftIsBijective | src/uart/FORTJoystick/FORTJoystickHelpers.cpp:90-93 | the shift step is a bijection on 16-bit registers |
| Crc16.CrcFromInjective | src/uart/FORTJoystick/FORTJoystickHelpers.cpp:85-97 | reading the same bytes never makes different registers equal |
| Crc16.CrcLinear | src/uart/FORTJoystick/FORTJoystickHelpers.cpp:85-97 | the CRC is linear over exclusive or on messages of equal length |
| Crc16.AdjacentErrorDetected | src/uart/FORTJoystick/FORTJoystickHelpers.cpp:85-97 | any change within two adjacent bytes of a message of any length changes the CRC |
| Crc16.BurstDetected | src/uart/FORTJoystick/FORTJoystickHelpers.cpp:85-97 | any burst of up to 16 bits, at any bit position, changes the CRC |
| Crc16.ZeroResidue | src/uart/FORTJoystick/FORTJoystickHelpers.cpp:163-172 | a block followed by two bytes has CRC zero if and only if they are its CRC, low byte first |
| Report.DecodeCombinedPayload | src/uart/FORTJoystick/FORTJoystickHelpers.cpp:153-176 | accepts exactly when there are 18 bytes and both blocks, CRC fields included, have CRC zero |
| Report.AcceptsExactly | src/uart/FORTJoystick/FORTJoystickHelpers.cpp:153-176 | accepted exactly when bytes 2-3 are the CRC of bytes 0-1, and bytes 16-17 that of bytes 4-15, low byte first |
| Report.ChangedReportRejected | src/uart/FORTJoystick/FORTJoystickHelpers.cpp:153-176 | an accepted report changed within any two adjacent of its 18 bytes, also across the block boundary, is rejected |
| Report.BurstReportRejected | src/uart/FORTJoystick/FORTJoystickHelpers.cpp:153-176 | an accepted report changed by any burst of up to 16 bits in its 18 bytes, also across the block boundary, is rejected |
| JausClient.JausClientImpl.DiscoverVehicle | src/jaus/JausClientImpl.cpp:66-87 | selects the first listed address, or reports that there is none |
| JausClient.JausClientImpl.SendRequestControl | src/jaus/JausClientImpl.cpp:89-106 | sends only when nothing is pending; returns whether the address is valid |
| JausClient.JausClientImpl.SendRequestResume | src/jaus/JausClientImpl.cpp:117-127 | sends whenever the address is valid and leaves the pending flag alone |
| JausClient.JausClientImpl.SendQueryStatus | src/jaus/JausClientImpl.cpp:129-145 | sends, and returns true, only when nothing is pending |
| JausClient.JausClientImpl.SendWrenchEffort | src/jaus/JausClientImpl.cpp:156-186 | puts exactly one wrench effort on the wire, each stick scaled into its own field |
| WrenchEffort.NormalizedScales | src/jaus/JausClientImpl.cpp:388-401 | efforts stay within 100 percent, are odd and strictly increasing in the clamped stick, and reach 100 exactly at its end |
| WrenchEffort.EffortIsSticks | src/jaus/JausClientImpl.cpp:169-175 | two reports give the same effort if and only if all six clamped sticks agree |
| WrenchEffort.EffortAxes | src/jaus/JausClientImpl.cpp:169-175 | each effort is in proportion to its own stick: linear X, Y, Z to the signed 12 bits in bytes 4-5, 6-7, 8-9, rotational X, Y, Z to those in 10-11, 12-13, 14-15 |
| WrenchEffort.EffortsFollowSticks | src/jaus/JausClientImpl.cpp:169-175 | each effort grows exactly with its own stick and is 100 exactly at 2047 |
| JausClient.JausClientImpl.Receive | src/jaus/JausClientImpl.cpp:205-283 | each callback updates the control and status flags and clears the pending flag |
| JausClient.CallsAreDisciplined | src/jaus/JausClientImpl.cpp:89-145 | every uninterrupted call and every callback keeps the pending flag equal to "a control request or status query is unanswered", with a callback between any two of those |
| Vehicle.PhasesAdvance | include/fort_agent/jaus/vehicleStateMachine.h:13-37 | over every run the phase never decreases, one event advances it by at most one, and Emergency is absorbing and silent |
| Vehicle.DiscoveryOnEdges | include/fort_agent/jaus/states/InitializeState.h:16-35 | discovery is called on exactly the R-Down rising edges seen in Initialize |
| Vehicle.DiscoveriesCountEdges | include/fort_agent/jaus/states/InitializeState.h:16-35 | the number of discovery calls equals the number of those edges |
| Vehicle.Milestones | include/fort_agent/jaus/vehicleStateMachine.h:13-37 | each phase reached has its cause in the history, and the causes come in order |
| Vehicle.ReadyExactly | include/fort_agent/jaus/states/ControlState.h:28-49 | Ready is reached if and only if a successful discovery on an R-Down edge is followed by two responses with a good answer, whatever is pressed after it |
| Vehicle.WrenchIsPreceded | include/fort_agent/jaus/states/ReadyState.h:31-34 | every wrench effort is preceded, in order and at distinct events, by a successful discovery on an edge, a response with control held and a response with READY |
| Vehicle.AliveNeverEmergency | include/fort_agent/jaus/states/ReadyState.h:47-72 | with a heartbeat that is always alive Emergency is never entered |
| Vehicle.EveryReportInReady | include/fort_agent/jaus/states/ReadyState.h:31-34 | over every run the wrench efforts are exactly the reports that find the machine in Ready, one each and in order |
| VehicleHistory.CallsExactly | include/fort_agent/jaus/states/ControlState.h:28-49 | exactly which events call the client in Control and Standby: a newly held R-Down not yet asked for in the state, or a response that brings nothing |
| VehicleHistory.FlagsAreHistory | include/fort_agent/jaus/states/StandbyState.h:29-52 | the flags of Control and Standby are what was pressed and asked for in that state |
| VehicleHistory.EarlyPhasesExactly | include/fort_agent/jaus/vehicleStateMachine.h:13-37 | exactly when Control and Standby are reached |
| VehicleHistory.LastCheckIsHistory | include/fort_agent/jaus/states/ReadyState.h:47-59 | the time kept in Ready is that of the latest update more than a second after the one before, or of the entry |
| VehicleHistory.EmergencyExactly | include/fort_agent/jaus/states/ReadyState.h:47-72 | Emergency is entered exactly by such an update that finds the heartbeat gone |
| VehicleHistory.ControlNoted | include/fort_agent/jaus/states/ReadyState.h:47-59 | in Ready control counts as held exactly if every update there found it so |
| VehicleStateMachine.InitializeState.HandleInput | include/fort_agent/jaus/states/InitializeState.h:16-28 | state and client change as the reactive machine says, with the client's own answer |
| VehicleStateMachine.ControlState.HandleInput | include/fort_agent/jaus/states/ControlState.h:28-39 | as above: one control request on an edge unless already requested |
| VehicleStateMachine.ControlState.HandleResponse | include/fort_agent/jaus/states/ControlState.h:41-49 | as above: control granted, or asked for again |
| VehicleStateMachine.StandbyState.HandleInput | include/fort_agent/jaus/states/StandbyState.h:29-41 | as above: resume and query on an edge unless already requested |
| VehicleStateMachine.StandbyState.HandleResponse | include/fort_agent/jaus/states/StandbyState.h:45-52 | as above: ready, or queried again |
| VehicleStateMachine.ReadyState.HandleInput | include/fort_agent/jaus/states/ReadyState.h:31-34 | as above: every report becomes a wrench effort |
| VehicleStateMachine.ReadyState.Update | include/fort_agent/jaus/states/ReadyState.h:47-59 | the heartbeat is judged only when more than a second has passed; loss of control is noted |
| VehicleStateMachine.Machine.TransitionIfNeeded | include/fort_agent/jaus/vehicleStateMachine.h:31-37 | the current state becomes a fresh successor exactly when its flag asks for one |
| VehicleStateMachine.Machine.HandleInput | include/fort_agent/jaus/vehicleStateMachine.h:13-16 | one step of the reactive machine, with the real client's answer and its calls applied to the client |
| VehicleStateMachine.Machine.HandleResponse | include/fort_agent/jaus/vehicleStateMachine.h:18-21 | the same for a response |
| VehicleStateMachine.Machine.Update | include/fort_agent/jaus/vehicleStateMachine.h:23-26 | the same for a tick |
| BridgeQueue.QueueRefinesFilter | src/jaus/JausBridge.cpp:78-99 | over every interleaving of posts and service steps, what was handed on followed by the queue is the posted history, keeping every response and exactly the usable reports that differ from the previous one |
| BridgeQueue.ReportQueuedExactly | src/jaus/JausBridge.cpp:239-260 | a report is queued exactly if it differs from the one before, bit 12 of left X is set and bit 1 of the buttons, Pause, is not |
| BridgeQueue.FirstComparedWith | src/jaus/JausBridge.cpp:57-60 | the first report is compared with zeros with every button bit set |
| JausBridge.Bridge.PostInput | src/jaus/JausBridge.cpp:239-260 | a report equal to the last is ignored; otherwise it becomes the last and is queued only if usable |
| JausBridge.Bridge.PostJausResponse | src/jaus/JausBridge.cpp:227-235 | a response is always queued last |
| JausBridge.Bridge.EvaluateCombined | src/jaus/JausBridge.cpp:197-204 | a payload is posted exactly when both its CRCs are right |
| JausBridge.Bridge.OnJaus | src/jaus/JausClientImpl.cpp:189-285 | a callback updates the flags and queues one response |
| JausBridge.Bridge.ServiceStep | src/jaus/JausBridge.cpp:78-99 | takes the oldest message and drives machine and client through its one step, or stops without touching anything |
| JausBridge.Bridge.StopServiceLoop | src/jaus/JausBridge.cpp:67-76 | clears the running flag and nothing else |
| BridgeRuns.StopEndsThread | src/jaus/JausBridge.cpp:67-99 | once the flag is cleared, whatever the other threads do, the service thread takes no further message and ends within four turns, one of which is possible until it has ended |
| WakeUp.StepKeeps | src/jaus/JausBridge.cpp:78-99 | every atomic action of any thread keeps the wake-up invariant |
| WakeUp.NoLostWakeUp | include/fort_agent/jaus/states/ControlState.h:28-49 | in every reachable state between messages, control requested in Control or resume requested in Standby implies that a request is unanswered on the wire, a response is on its way to the handler, or the latest callback came between a send and its flag write |
| WakeUp.FlagMeaning | src/jaus/JausClientImpl.cpp:89-145 | in every run the pending flag is set exactly when a control request or status query is unanswered or the latest callback overtook a flag write, and never both |
| WakeUp.WakeUpExactly | src/jaus/JausClientImpl.cpp:89-145 | in every run, between messages, with the machine waiting and no response on its way, a request is unanswered if and only if the latest callback did not overtake a flag write |
| WakeUp.WakeUpLost | src/jaus/JausClientImpl.cpp:102-105 | a run in which a rejection overtakes the flag write and the machine waits for an answer that nobody owes |
| WakeUp.StuckUntilCallback | include/fort_agent/jaus/states/ControlState.h:28-49 | from there, whatever is pressed, nothing is sent and the phase stays until another callback comes |
| WakeUp.RequestsAlternateWithCallbacks | src/jaus/JausClientImpl.cpp:89-145 | on the wire of every run there is a callback between any two requests that await an answer (RequestControl, QueryStatus), and at most one Resume, sent exactly when Standby has asked for it |
| WakeUp.UninterruptedIsOneStep | include/fort_agent/jaus/vehicleStateMachine.h:13-21 | the sub-steps of a handler, uninterrupted, are one step of the machine with the client's answers |
| BridgeRuns.WrenchIsAuthorised | src/jaus/JausBridge.cpp:78-99 | over every run of all threads with the real client, before any wrench effort a report with R-Down held was posted, a vehicle listed, control accepted and READY reported, and the effort is that of a usable report posted earlier |
| BridgeRuns.WrenchesAreReports | include/fort_agent/jaus/states/ReadyState.h:31-34 | over every run of all threads the wrench efforts on the wire are exactly those of the reports handled in Ready, one each and in order |
| BridgeRuns.ClientIsHistory | src/jaus/JausClientImpl.cpp:189-285 | over every run control is held exactly if it was accepted and neither refused nor released since, and the status is the one last reported |
| BridgeRuns.DiscoveryExactly | src/jaus/JausClientImpl.cpp:66-87 | a newly held R-Down in Initialize leads to Control exactly if a vehicle is listed, and the first one listed becomes the address |
| BridgeRuns.RequestsHaveAddress | src/jaus/JausClientImpl.cpp:89-145 | over every run no control request, resume or query is on the wire unless the address is valid |
| BridgeRuns.OnePressIsEnough | include/fort_agent/jaus/states/StandbyState.h:29-52 | a run with a single report posted in which the machine becomes Ready and no Resume is sent |

## Left out

- PathAgreesExactly: leaves out options before Uri-Path of more than 255 bytes, which RFC 7252 does not allow, and messages without a Uri-Path whose first option behind it has a number that the reader takes for 11 or less (WideStepMisread is one misreading). The bound of 512 bytes is the size of every datagram and serial message; PathRoundTripExactly shares it.
- CreateSlipEncodedMessage: requires room for the whole frame, because the C++ writes without a bound; AsyncSendMessageToSerialPort models the overrun of its own buffer as None.
- ParseObserveReply: requires a non-empty buffer, because the C++ reads the first byte before it looks at the length.
- SendRequestControl: is one uninterrupted call; WakeUp splits it and SendQueryStatus at the flag write. The single bytes of a flag and the memory model of unsynchronised flags are not modelled.
- SendWrenchEffort: scales over the reals; the rounding of `double` is not modelled.
- StopServiceLoop: clears the flag; that the thread then ends is StopEndsThread, and the condition variable and the join are not modelled.
- AsyncSendDataToSerialPort: requires some data, because its one caller passes a whole frame; on none the C++ would start a write of nothing.
- AsyncWriteToSerialPortCb: takes a failed write to have put nothing on the line.
- EndToEnd: assumes a peer that repeats the token it heard and whose frames reach the agent unaltered; it may send anything else before, between and after them. A message whose frame overruns the command buffer ends a run, so its client is not covered.
- BurstDetected: needs three bytes at the place of the burst; a burst at the end of a message is AdjacentErrorDetected.
- Sockets, serial port opening, timers and rebind or retry logic: library input and output.
- OpenJAUS, tinycbor, logging, console output, display text and vibration: foreign calls.
- decode_battery_payload and the CBOR helpers: thin wrappers.
- The get and post functions of coapSRCPro.cpp and the rest of the switch in evaluateCoapJausMessage: tables.
- ShutdownState: nothing constructs it.
