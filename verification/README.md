# MeterLogger, modelled in Dafny

MeterLogger is the firmware of an ESP8266 that reads a Kamstrup heat meter, reports over
MQTT, and updates itself over HTTP. This project models the four parts of it with the most
state and proves what they are for. `dafny verify dfyconfig.toml` checks everything.

**heatshrink** (`Bits`, `Lzss`, `OutputBuffer`, `HeatshrinkSearch`, `HeatshrinkEncoder`,
`HeatshrinkDecoder`, `HeatshrinkRoundTrip`). The LZSS codec is two state machines that are
fed and drained in pieces. `Lzss` says what a token list means and what the decoder makes of
a bit stream. `Encoder` and `Decoder` are classes with the fields, the arrays and the steps
of the C code; ghost fields hold the bytes accepted and written so far. The encoder's
invariant makes its tokens a greedy longest-match parse of its input, through the in-place
shifts of the buffer and the flags that limit the search; the decoder's makes its output a
prefix of the reference decoding of whatever bits came in. Together they give the round trip.

**The OTA download** (`OtaHeaders`, `OtaUpdate`, `OtaResponses`). `Judge` says what a
response means as a whole: still waiting for a header, to be rejected, or a body. The
class `Ota` has the static variables of the C file, and a method for every callback. The
server's bytes, their cut into packets, the order of events and the outcome of every flash
call are arbitrary. Flash is a byte sequence. rBoot's writer is taken to put whole words
at its position, to hold up to three bytes back, and to leave everything before its
position alone; its source is not part of this model. The invariant ties the accepted
prefix of the image to flash, writer and hash. `OtaResponses` has responses as servers
write them: which are taken, and the downloads that then succeed.

**The MQTT client** (`RingBuffer`, `Proto`, `Queue`, `MqttMessage`, `MqttStream`,
`MqttSteps`, `MqttTrace`, `MqttRuns`, `MqttReplies`, `MqttReceived`, `MqttDelivery`,
`MqttService`, `MqttFailures`, `MqttClient`). A ring buffer, escaped frames in it, and a
queue with rollback implement a bounded sequence of packets. `MqttSteps` is the client
as a state machine: each callback, the timer, the task and each call is a function over
a value that holds its whole state, and the methods of `Client` are proved to compute
these functions. The state also records every packet queued, every one that left with
the places of its send and its ack, and a trace of what was handled and what was handed
to TCP (the CONNECT packet apart). `MqttTrace` says what a trace means for a packet.
`MqttRuns`, `MqttReplies` and `MqttReceived` prove what holds over all runs,
`MqttDelivery` and `MqttService` that what should happen does, and `MqttFailures` has
the runs in which the client fails.

**Integrity on the wire** (`AesField`, `AesSBox`, `Aes`, `AesExample`, `Cbc`, `Sha256`,
`Sha256Meaning`, `Sha256Example`, `Hmac`, `Envelope`, `Crc16`, `Kmp`). Each in-place
algorithm against a specification on values: AES and its inverse, CBC in place, SHA-256
with its rolling schedule, HMAC, the envelope around a message, the table-driven CRC,
and the frames of the meter. The specifications are tied to the standards apart from
themselves: tables and constants by what they mean, key schedule, chaining and envelope
by their equations, AES and SHA-256 by the standards' examples, carried through every
round.

What the proofs found:

- The heatshrink decoder goes idle with up to seven unread bits
  (`lib/heatshrink/heatshrink_decoder.c:312-314`), so with (w, l) = (4, 2), which both
  allocators accept, it drops a final back-reference: "aaaa" comes back as "a". Every other
  accepted pair is safe for the idle rule (`Lzss.IdleRuleIsExact`,
  `HeatshrinkEncoder.ShortTokensLoseData`), and so are all pairs that
  `mkespfsimage/main.c:39-40` uses.
- With w = 15, which the encoder's allocator accepts, indexing fails: the end of a full
  buffer, 2^16, does not fit its `uint16_t` (`lib/heatshrink/heatshrink_encoder.c:455-456`)
  and wraps to 0, so nothing is indexed, and the search follows whatever the index memory
  held (`HeatshrinkSearch.DoIndexing`). In a buffer that is not full, positions from 2^15 on
  turn negative in the index and end its lists early (`HeatshrinkSearch.RawIndexExact`), so
  matches are missed (`HeatshrinkSearch.MissedMatch`).
- With l = w, which the encoder's allocator accepts, the encoder never frees room before the
  finish (`HeatshrinkEncoder.Encoder.OneWindowOnly`).
- A sink of no bytes wakes an idle decoder. Any later byte makes that harmless, but a poll
  before it does not if no bit is left unread: "no bits" is taken for a tag of 1, and the
  decoder goes on as if that bit had been sent (`HeatshrinkDecoder.Decoder.Poll` has the
  exact condition). After an empty sink and a poll, the two bytes that encode 0x61 decode to
  0xB0 (`HeatshrinkRoundTrip.EmptySinkRun`). With a whole 7-bit token left, which only
  (4, 2) has, the same calls make the decoder decode it early.
- In the encoder the flag HAS_LITERAL is always clear when the backlog is saved, so the
  final-literal path is never taken.
- The last branch of `ota_tcp_discon_cb` (`user/ota.c:1287-1289`) cannot be reached, nor can
  several of the size checks before it (`OtaUpdate.Ota.TcpDiscon`).
- The client does not tell QoS 1 from QoS 2 when an ack comes in: a PUBACK ends a QoS 2
  publish, without PUBREC and PUBCOMP (`mqtt/mqtt.c:580-588`, `MqttClient.EarlyPubackRun`),
  and a QoS 1 publish goes through PUBREC, PUBREL and PUBCOMP if the server asks for it
  (`MqttFailures.PubcompEndsQos1`). `MqttTrace.EndOfPublish` has the exact condition;
  `MqttTrace.FinalAckByQos` says that with acks of the right type all is well.
- A PUBACK with id 0 that follows a QoS 0 publish makes the client drop a packet it has not
  sent: `MqttClient.StrayAckRun` is such a run of a new client. `MqttRuns.PopsExactly` says
  exactly when a packet is dropped. Brokers do not send id 0.
- Every TCP connect clears the record with the last packet id (`mqtt/mqtt.c:823`,
  `mqtt/mqtt_msg.c:128-133`), and what was queued before stays queued, so two queued packets
  can have one id (`MqttClient.ReconnectIdRun`). Ids are distinct among fewer than 65536
  packets built since the last TCP connect (`MqttRuns.IdsDistinct`,
  `MqttRuns.QueuedIdsDistinct`).
- A wait does not end while the broker repeats a matching PUBREC, which begins it anew
  (`mqtt/mqtt.c:588-600`, `MqttFailures.PubrecRun`). Without that and without an answer
  every wait ends in time, whatever else happens (`MqttRuns.EveryWaitEnds`).
- `mqtt_get_id` returns 0 for a SUBSCRIBE with a Remaining Length of 128 or more and for a
  QoS 1 or 2 PUBLISH without payload (`MqttMessage.SubscribeRoundTrip`,
  `MqttMessage.PublishRoundTrip`), and an incoming QoS 1 PUBLISH with such an id is
  acknowledged with a new id. A queued one waits for an ack of id 0: with a server that sends
  none it never leaves the queue and blocks everything behind it (`MqttRuns.NeverLeaves`,
  `MqttFailures.EmptyPayloadWaits`).
- A connection error clears no wait, so the timeout of the lost connection runs out before
  the reconnect delay and replaces the pending reconnect by a disconnect
  (`MqttFailures.ErrorRun`, `MqttFailures.ReconnectsInTime`).
- `MQTT_Disconnect` stops the timer (`mqtt/mqtt.c:1536`). A connection that is established
  all the same comes into use, and then no wait ends: the client waits for CONNACK for ever
  (`MqttFailures.DisconnectTooEarly`). `MqttRuns.EveryWaitEnds` asks for a running timer.
- A packet that is sent again after a reconnect has the same bytes, so its DUP flag is 0
  (`MqttFailures.ResentWithoutDup`); section 3.3.1.1 of MQTT 3.1.1 asks for 1.
- The KMP receiver never looks at the last byte of an unstuffed frame: the stop byte is
  tested before unstuffing (`user/kamstrup/kmp.c:239-347`). A frame that ends in an escaped
  stop byte passes the check (`Kmp.LastByteUnchecked`), so bursts are detected in every byte
  but that one (`Kmp.FrameBurst`).

## Model

| member | source | states |
|---|---|---|
| `HeatshrinkRoundTrip.RoundTrip` | lib/heatshrink/test_heatshrink_dynamic_theft.c:238-345 | the codec round trip, for every input and every sequence of sink and poll sizes on both sides: the decoder finishes DONE, and its output is the input if and only if the decoder does not lose the last token of the greedy parse the encoder wrote; always when a back-reference takes eight bits |
| `HeatshrinkRoundTrip.Compress` | lib/heatshrink/heatshrink_encoder.c:145-266 | driving sink, poll and finish to DONE yields a greedy longest-match parse of the input, its bits padded with fewer than eight zeros, and at most ceil(9n/8) bytes while w + l <= 26; with l = w it needs an input of at most one window |
| `HeatshrinkRoundTrip.FinishAll` | lib/heatshrink/heatshrink_encoder.c:260-266 | finish and poll reach DONE, for every poll size |
| `HeatshrinkRoundTrip.Drain` | lib/heatshrink/heatshrink_encoder.c:198-258 | polling an encoder ends in NOT_FULL, loses nothing and repeats nothing |
| `HeatshrinkRoundTrip.Decompress` | lib/heatshrink/heatshrink_decoder.c:102-202 | for any input, valid or not, and any chunk sizes the output is the one of the bit-level reference decoder |
| `HeatshrinkRoundTrip.DrainDecoder` | lib/heatshrink/heatshrink_decoder.c:148-202 | polling a decoder ends idle with its input buffer drained |
| `Lzss.IdleRuleIsExact` | lib/heatshrink/heatshrink_decoder.c:312-314 | going idle with up to seven unread bits never matters, for any bit string, if and only if w + l >= 7 |
| `Lzss.StreamDecodeOfEncoding` | lib/heatshrink/heatshrink_decoder.c:312-314 | a padded token list is recovered if and only if its last token does not start with fewer than eight bits to go |
| `Lzss.DecodeOfEncoding` | lib/heatshrink/heatshrink_decoder.c:205-309 | token by token decoding inverts encoding, and zero padding is never taken for a token |
| `Lzss.CopyOfMatch` | lib/heatshrink/heatshrink_decoder.c:285-309 | copying byte by byte from d back, overlapping or not, reproduces a match at distance d |
| `Lzss.SizeBound` | lib/heatshrink/heatshrink_encoder.c:321-411 | tokens take at most nine bits for each byte they stand for, while w + l <= 26 |
| `HeatshrinkEncoder.ShortTokensLoseData` | lib/heatshrink/heatshrink_decoder.c:312-314 | a counterexample that the encoder reaches: at (w, l) = (4, 2) every encoding of "aaaa" is a literal and a 7-bit back-reference, and decodes to one "a" |
| `HeatshrinkEncoder.EncodingDecodes` | lib/heatshrink/heatshrink_encoder.c:198-411 | what the encoder writes decodes to its input, if and only if the last token is not lost |
| `HeatshrinkEncoder.NothingLonger` | lib/heatshrink/heatshrink_encoder.c:495-564 | the search in the shifted buffer finds the longest match of the stream itself, of those the nearest: nothing longer lies within the window and 2^l bytes or more behind the start of the stream, or anywhere in the first window |
| `HeatshrinkEncoder.MatchChosen` | lib/heatshrink/heatshrink_encoder.c:302-318 | a match becomes a token with 1 <= distance <= min(2^w - 1, bytes already encoded), at least three bytes long, that expands to the bytes it covers |
| `HeatshrinkEncoder.LiteralChosen` | lib/heatshrink/heatshrink_encoder.c:305-310 | without a worthwhile match the next byte becomes a literal |
| `HeatshrinkEncoder.GreedyGrows` | lib/heatshrink/heatshrink_encoder.c:275-281 | input that arrives later makes no token worse: each had a whole lookahead |
| `HeatshrinkEncoder.PartialStep` | lib/heatshrink/heatshrink_encoder.c:594-611 | one bit more in the current byte |
| `HeatshrinkEncoder.FlushedByte` | lib/heatshrink/heatshrink_encoder.c:398-411 | the flushed byte holds the bits in use and zeros |
| `HeatshrinkEncoder.Encoder.constructor` | lib/heatshrink/heatshrink_encoder.c:78-143 | a new encoder satisfies the invariant of all states and has accepted and written nothing |
| `HeatshrinkEncoder.Encoder.Sink` | lib/heatshrink/heatshrink_encoder.c:145-174 | exactly as many bytes as fit are accepted, and misuse changes nothing; a full buffer starts processing |
| `HeatshrinkEncoder.Encoder.Poll` | lib/heatshrink/heatshrink_encoder.c:198-258 | writes the first n cells of the output and no others, and they are what the stream gained; MORE only when the output is full, EMPTY only when the encoder needs input or is flushed (or, in FLUSH_BITS, the output is full); the loop ends |
| `HeatshrinkEncoder.Encoder.Finish` | lib/heatshrink/heatshrink_encoder.c:260-266 | marks the end of the input; DONE only after the last bit is out |
| `HeatshrinkEncoder.Encoder.Advance` | lib/heatshrink/heatshrink_encoder.c:198-258 | every step covers more input, pushes bits or moves on, unless the output is full |
| `HeatshrinkEncoder.Encoder.StFilled` | lib/heatshrink/heatshrink_encoder.c:222-225 | indexing covers the backlog and all input |
| `HeatshrinkEncoder.Encoder.StStepSearch` | lib/heatshrink/heatshrink_encoder.c:268-319 | one token is chosen, or the backlog is saved when the lookahead no longer fits |
| `HeatshrinkEncoder.Encoder.SearchHere` | lib/heatshrink/heatshrink_encoder.c:283-303 | the search covers the window the flags allow, and as much lookahead as there is |
| `HeatshrinkEncoder.Encoder.SearchStart` | lib/heatshrink/heatshrink_encoder.c:283-294 | the PARTIAL and FILLED flags admit only bytes that were really encoded, and all of them but the oldest 2^l |
| `HeatshrinkEncoder.Encoder.TakeLiteral` | lib/heatshrink/heatshrink_encoder.c:305-310 | covers one more byte, with its nine bits pending |
| `HeatshrinkEncoder.Encoder.TakeMatch` | lib/heatshrink/heatshrink_encoder.c:311-318 | covers the matched bytes, with 1 + w + l bits pending |
| `HeatshrinkEncoder.Encoder.StYieldTagBit` | lib/heatshrink/heatshrink_encoder.c:321-336 | the tag is pushed before the fields of its token, or nothing happens for lack of room |
| `HeatshrinkEncoder.Encoder.StYieldLiteral` | lib/heatshrink/heatshrink_encoder.c:338-348 | the literal byte is the one scanned last |
| `HeatshrinkEncoder.Encoder.StYieldBrIndex` | lib/heatshrink/heatshrink_encoder.c:350-364 | the index field goes out most significant bits first, in pieces |
| `HeatshrinkEncoder.Encoder.StYieldBrLength` | lib/heatshrink/heatshrink_encoder.c:366-380 | then the length field, and the scan goes on behind the match |
| `HeatshrinkEncoder.Encoder.StSaveBacklog` | lib/heatshrink/heatshrink_encoder.c:382-396 | flush when finishing, else make room |
| `HeatshrinkEncoder.Encoder.SaveBacklogNow` | lib/heatshrink/heatshrink_encoder.c:624-650 | the processed bytes stay searchable, and exactly they leave the input half |
| `HeatshrinkEncoder.Encoder.ShiftBuffer` | lib/heatshrink/heatshrink_encoder.c:624-650 | the overlapping move keeps the buffer equal to the stream around the new input position |
| `HeatshrinkEncoder.Encoder.StFlushBitBuffer` | lib/heatshrink/heatshrink_encoder.c:398-411 | the last partial byte is padded with zeros and written, when there is room |
| `HeatshrinkEncoder.Encoder.PushOutgoingBits` | lib/heatshrink/heatshrink_encoder.c:566-583 | up to eight of the pending bits move to the output, from the top |
| `HeatshrinkEncoder.Encoder.PushBits` | lib/heatshrink/heatshrink_encoder.c:587-613 | the fast path for a whole byte and the bit loop append the same bits, and at most one byte |
| `HeatshrinkEncoder.Encoder.PushBit` | lib/heatshrink/heatshrink_encoder.c:594-611 | one bit, and the byte it completes |
| `HeatshrinkEncoder.Encoder.Recoverable` | lib/heatshrink/heatshrink_encoder.c:198-266 | a finished encoder has written an encoding of exactly the bytes it accepted |
| `HeatshrinkEncoder.Encoder.FinalSize` | lib/heatshrink/heatshrink_encoder.c:321-411 | at most ceil(9n/8) bytes in all, while w + l <= 26 |
| `HeatshrinkEncoder.Encoder.OneWindowOnly` | lib/heatshrink/heatshrink_encoder.c:275-281 | with l = w nothing is scanned before the finish, so at most one window of input is accepted |
| `HeatshrinkEncoder.Encoder.RoomToSink` | lib/heatshrink/heatshrink_encoder.c:275-281 | with l < w an encoder that wants input always has room |
| `HeatshrinkSearch.DoIndexing` | lib/heatshrink/heatshrink_encoder.c:432-469 | entry i is the nearest earlier position of the same byte, or 0xFFFF without one, as an int16_t; with a sum of 2^16 nothing is indexed |
| `HeatshrinkSearch.RawIsIndex` | lib/heatshrink/heatshrink_encoder.c:432-469 | up to 2^15 positions the entries lead to the previous occurrence of each byte, and are negative without one |
| `HeatshrinkSearch.RawIndexExact` | lib/heatshrink/heatshrink_encoder.c:432-469 | the entries lead to the previous occurrence of each byte if and only if none of those is at position 2^15 or beyond |
| `HeatshrinkSearch.FindLongestMatch` | lib/heatshrink/heatshrink_encoder.c:495-564 | following the index finds the longest match in [start, end), the nearest of its length, and MATCH_NOT_FOUND exactly when none has three bytes; along whatever indexing leaves, index or not, it finds only true matches, and none when the first entry is before the start |
| `HeatshrinkSearch.MissedMatch` | lib/heatshrink/heatshrink_encoder.c:432-564 | with 2^15 bytes of backlog, over a buffer of zeros, the indexed search answers MATCH_NOT_FOUND where the linear one finds a full match one byte back |
| `HeatshrinkSearch.FindLongestMatchLinear` | lib/heatshrink/heatshrink_encoder.c:495-564 | the scan compiled without the index meets the same specification |
| `HeatshrinkSearch.BestMatchUnique` | lib/heatshrink/heatshrink_encoder.c:495-564 | that specification has one answer, so the two searches agree |
| `HeatshrinkSearch.NothingBetween` | lib/heatshrink/heatshrink_encoder.c:507-512 | positions the index skips cannot begin a match |
| `HeatshrinkDecoder.Decoder.constructor` | lib/heatshrink/heatshrink_decoder.c:52-98 | a new decoder is idle and consistent |
| `HeatshrinkDecoder.Decoder.Sink` | lib/heatshrink/heatshrink_decoder.c:102-125 | exactly as many bytes as fit are accepted, and their bits follow those fed before; the invariant always holds, and by it the bits fed are those of the bytes accepted unless a poll added one; the decoder is left awake without a byte if and only if the sink was empty and the decoder idle, or awake already |
| `HeatshrinkDecoder.Decoder.Poll` | lib/heatshrink/heatshrink_decoder.c:148-202 | a poll feeds a bit that was not sent if and only if it finds the decoder awake without a byte and no bit unread, and decodes early only a 7-bit token found so; the output is always a prefix of the reference decoding of the bits fed, and all of it when EMPTY is returned, and then the input buffer is drained; only the first n cells of the output are written; the loop ends |
| `HeatshrinkRoundTrip.EmptySinkRun` | lib/heatshrink/heatshrink_decoder.c:102-202 | a new decoder, an empty sink, a poll, and two bytes that encode 0x61 come out as 0xB0 |
| `HeatshrinkRoundTrip.ExtraBitShiftsLiteral` | lib/heatshrink/heatshrink_decoder.c:205-215 | whatever was decoded before, a bit that was not sent turns the next literal into another |
| `HeatshrinkDecoder.Decoder.Step` | lib/heatshrink/heatshrink_decoder.c:158-189 | one step of the state the decoder is in: it reads, writes or moves on, or says why it cannot |
| `HeatshrinkDecoder.Decoder.Finish` | lib/heatshrink/heatshrink_decoder.c:369-393 | DONE exactly when nothing more can come out, and then everything was decoded |
| `HeatshrinkDecoder.Decoder.GetBits` | lib/heatshrink/heatshrink_decoder.c:319-366 | the next count bits of the unread input, or no change at all when fewer are left |
| `HeatshrinkDecoder.Decoder.NextBit` | lib/heatshrink/heatshrink_decoder.c:334-359 | the head of the unread bits, whatever byte boundaries lie between |
| `HeatshrinkDecoder.Decoder.StInputAvailable` | lib/heatshrink/heatshrink_decoder.c:205-215 | the tag bit selects the kind of token, and no bit at all is taken for a 1 |
| `HeatshrinkDecoder.Decoder.StYieldLiteral` | lib/heatshrink/heatshrink_decoder.c:218-236 | a literal comes out and enters the window, or the decoder waits |
| `HeatshrinkDecoder.Decoder.StBackrefIndexMsb` | lib/heatshrink/heatshrink_decoder.c:239-247 | the high bits of the index, or a wait without loss |
| `HeatshrinkDecoder.Decoder.StBackrefIndexLsb` | lib/heatshrink/heatshrink_decoder.c:250-260 | the index is complete, between 1 and 2^w |
| `HeatshrinkDecoder.Decoder.StBackrefCountMsb` | lib/heatshrink/heatshrink_decoder.c:263-271 | the high bits of the count |
| `HeatshrinkDecoder.Decoder.StBackrefCountLsb` | lib/heatshrink/heatshrink_decoder.c:274-282 | the token is complete: the bits read are its encoding |
| `HeatshrinkDecoder.Decoder.StYieldBackref` | lib/heatshrink/heatshrink_decoder.c:285-309 | as much of the copy as the output takes; the rest stays pending |
| `HeatshrinkDecoder.Decoder.CopyByte` | lib/heatshrink/heatshrink_decoder.c:299-305 | the byte outputIndex back in the stream, found through the wrapping window and the 16-bit head index |
| `HeatshrinkDecoder.Decoder.PushByte` | lib/heatshrink/heatshrink_decoder.c:396-400 | a byte enters output and window; the window holds the last 2^w bytes |
| `HeatshrinkDecoder.Decoder.StCheckForInput` | lib/heatshrink/heatshrink_decoder.c:312-314 | idle exactly when no byte is buffered |
| `HeatshrinkDecoder.WrappedSlot` | lib/heatshrink/heatshrink_decoder.c:290-305 | wrapping the head index at 2^16 does not move window slots |
| `HeatshrinkDecoder.FieldFromParts` | lib/heatshrink/heatshrink_decoder.c:239-260 | high part and low byte of a field are the field |
| `OtaUpdate.Ota.Run` | user/ota.c:542-1667 | over all runs, any server and any outcome of flash calls: every slot ever staged held an image as long as the server announced, of a size in [MIN, MAX], with the digest given for that slot, if any was given; no staging is taken back; and an update makes a bounded number of connection attempts |
| `OtaUpdate.Ota.RunServed` | user/ota.c:542-1667 | over every run against a server whose responses are all parts of one file, however they are cut into packets and whatever the flash calls do, every slot staged holds exactly that file |
| `OtaUpdate.Ota.HandleServed` | user/ota.c:542-1384 | with such a server every event keeps the image a prefix of the file, and stages nothing else |
| `OtaUpdate.Ota.Handle` | user/ota.c:452-1384 | every event keeps the invariant and takes back no staging |
| `OtaUpdate.Ota.HashAgreesWithFlash` | user/ota.c:542-1102 | while data is accepted, the bytes hashed are the bytes of the slot and of the writer; otherwise received is a multiple of 4096 and the accepted prefix is in flash |
| `OtaUpdate.Ota.Deliver` | user/ota.c:806-1102 | however a response is cut into packets, exactly the body behind the first blank line is accepted, and whether it is accepted depends on the bytes alone |
| `OtaResponses.DownloadParts` | user/ota.c:640-664 | liveness: against a server that answers every request with a part of a file, however it chooses and cuts the parts, the update ends without a retry, and the file is staged if and only if it has the digest given |
| `OtaResponses.DownloadWhole` | user/ota.c:881-1102 | liveness: so it does for a response with the whole file |
| `OtaResponses.WholeTaken` | user/ota.c:840-985 | a response as a server writes it, with code 200, one Content-Length in any case among any other fields, and a blank line: it is taken from byte zero if and only if the size is sane and the body fits |
| `OtaResponses.RangeTaken` | user/ota.c:840-985 | the same with code 206 and one Content-Range: it is taken if and only if the range begins at the offset and agrees with the length, the total and the size known from before |
| `OtaResponses.OthersRefused` | user/ota.c:840-985 | every other three-digit code is refused, and a response without a Content-Length, or a 206 without a Content-Range |
| `OtaResponses.StatusRead` | user/ota.c:335-372 | the three digits behind HTTP/1.0 or HTTP/1.1 are the status, whatever the reason text |
| `OtaResponses.FieldRead` | user/ota.c:133-181 | the value of the only field of a name is found, wherever the field stands |
| `OtaResponses.FieldMissing` | user/ota.c:133-181 | a field that is not there is not found |
| `OtaResponses.HeaderFound` | user/ota.c:824-832 | the header ends at its blank line, whatever the body |
| `OtaUpdate.Ota.Silence` | user/ota.c:490-776 | when the network stays silent, the timers alone end every update |
| `OtaUpdate.Ota.constructor` | user/ota.c:44-100 | before any request |
| `OtaUpdate.Ota.Start` | user/ota.c:1387-1667 | a request resets everything and targets the slot that is not running; a malformed digest or URL fails it |
| `OtaUpdate.Ota.TcpRecv` | user/ota.c:779-1104 | the update goes on exactly with the bytes of the stream: it fails when the response so far is to be rejected, and only for that or a flash error |
| `OtaUpdate.Ota.ReadHeader` | user/ota.c:806-842 | header bytes are collected up to 1023; the body begins in the packet that completes the header |
| `OtaUpdate.Ota.TakeHeader` | user/ota.c:847-988 | exactly the responses that Offer describes are taken |
| `OtaUpdate.Ota.TakeWhole` | user/ota.c:881-916 | a 200 response restarts image, writer and hash from byte zero |
| `OtaUpdate.Ota.TakeRange` | user/ota.c:917-980 | a 206 response for the requested offset goes on with the image |
| `OtaUpdate.Ota.AcceptBody` | user/ota.c:1012-1102 | body bytes enter hash, flash and count together, or the update fails |
| `OtaUpdate.Ota.BeginImage` | user/ota.c:1035-1086 | the erase leaves the accepted prefix alone, and the rebuilt hash covers exactly it |
| `OtaUpdate.Ota.HashAndWrite` | user/ota.c:1088-1102 | hash and writer take the same bytes |
| `OtaUpdate.Ota.RehashFlash` | user/ota.c:542-576 | reading 256 bytes at a time, the hash is rebuilt over the received bytes |
| `OtaUpdate.Ota.TcpConnect` | user/ota.c:1294-1343 | the request asks for the exact number of bytes accepted so far |
| `OtaUpdate.Ota.TcpDiscon` | user/ota.c:1136-1291 | a complete image with the right digest is staged, a complete partial response asks for the next range without spending a retry, anything else spends one; a complete response never reaches the last branch |
| `OtaUpdate.Ota.Complete` | user/ota.c:1149-1253 | the slot is staged exactly when the flash was finished and the digest matches; what is staged is the image |
| `OtaUpdate.Ota.CheckDigest` | user/ota.c:1188-1212 | the digest of the target slot is the one that counts, and must be there if any digest was given |
| `OtaUpdate.Ota.TriggerReconnect` | user/ota.c:660-776 | a retry is spent and the image cut to whole sectors, or the update fails |
| `OtaUpdate.Ota.SpendRetry` | user/ota.c:691-717 | received drops to the start of its sector |
| `OtaUpdate.Ota.ScheduleRangeContinue` | user/ota.c:640-657 | offset, writer and hash stay as they are, and no retry is spent |
| `OtaUpdate.Ota.RetryTimer` | user/ota.c:579-632 | a new attempt from exactly the image so far; only a continuation keeps the writer |
| `OtaUpdate.Ota.BeginAttempt` | user/ota.c:579-611 | everything about the last response is forgotten |
| `OtaUpdate.Ota.Timeout` | user/ota.c:490-520 | silence spends a retry |
| `OtaUpdate.Ota.TcpRecon` | user/ota.c:1107-1133 | a connection error spends a retry |
| `OtaUpdate.Ota.DnsFound` | user/ota.c:1346-1384 | a failed lookup or connect spends a retry |
| `OtaUpdate.Ota.FailUpdate` | user/ota.c:463-482 | a failed update leaves no timer armed and nothing pending |
| `OtaUpdate.Offer` | user/ota.c:847-988 | a taken response starts at 0 or at the requested offset, fits its total, and has the size known from before |
| `OtaUpdate.JudgeExtends` | user/ota.c:806-1102 | once a header is complete, later bytes only extend the body |
| `OtaUpdate.RejectionStands` | user/ota.c:806-1037 | what was rejected stays rejected however the stream goes on |
| `OtaUpdate.HeaderStep` | user/ota.c:811-842 | one packet more of an incomplete header |
| `OtaUpdate.HoldsAfterWrite` | user/ota.c:1093-1102 | writing whole words and holding the rest appends to the image, and disturbs nothing before the position |
| `OtaUpdate.HoldsAfterErase` | user/ota.c:1056-1073 | erasing the sector of a sector-aligned offset keeps every byte before it |
| `OtaUpdate.HoldsAfterEnd` | user/ota.c:1160-1166 | finishing the writer puts the held bytes behind the rest |
| `OtaUpdate.Rewind` | user/ota.c:692-696 | cutting to a sector boundary leaves an image that flash holds completely |
| `OtaUpdate.AttemptsFall` | user/ota.c:691-717 | the measure behind the bound on attempts: retries left, then bytes to go |
| `OtaUpdate.EndOfResponse` | user/ota.c:1139-1290 | what the counters say about the response at its end |
| `OtaHeaders.ReadNumber` | user/ota.c:188-222 | the digit loop with its overflow test reads exactly the numbers below 2^32 |
| `OtaHeaders.ParseUint32` | user/ota.c:188-222 | a number alone on its line |
| `OtaHeaders.ParseContentRange` | user/ota.c:232-329 | the three numbers of a byte range |
| `OtaHeaders.EqualIgnoringCase` | user/ota.c:114-124 | comparison without regard to ASCII case |
| `OtaHeaders.GetHeaderValue` | user/ota.c:133-181 | the value of the only header of a name; missing and duplicate headers are told apart from it |
| `OtaHeaders.ParseHeaders` | user/ota.c:335-372 | status, length and range of a header |
| `OtaHeaders.HeaderEndExtends` | user/ota.c:824-832 | more bytes never move a blank line that was found |
| `OtaHeaders.Uint32ReadBack` | user/ota.c:188-222 | every printed number is read back, and one of 2^32 or more is refused |
| `OtaHeaders.NumberReadBack` | user/ota.c:193-214 | digits followed by anything else are read back |
| `OtaHeaders.ContentRangeReadBack` | user/ota.c:232-329 | every printed byte range is read back, and refused if a number does not fit 32 bits |
| `OtaHeaders.BlanksSkipped` | user/ota.c:193-195 | spaces and tabs before a value do not matter |
| `MqttClient.Client.Run` | mqtt/mqtt.c:1035-1191 | a run of events takes the client to exactly the state that the state machine gives; what was queued is what left the queue, in order, followed by what is still queued; each packet that left has a send of its own in the trace and, if it needs one, the first final ack of its own handled after that send: SUBACK or PINGRESP, PUBCOMP if a PUBREC for it was handled in between, and answered by PUBREL, and else PUBACK; only a PUBACK with id 0 drops a packet without; and those that left otherwise are, in order, a subsequence of the sends from the queue; and whatever is sent without being queued answers the packet handled just before it, by type, QoS and id, while every packet that asks for an answer gets it at once |
| `MqttReplies.RepliesOverRuns` | mqtt/mqtt.c:570-608 | a law of the trace over every run, in the bytes that go out: PUBACK goes out for a PUBLISH of QoS 1 only, PUBREC for QoS 2, PUBREL for PUBREC, PUBCOMP for PUBREL and PINGRESP for PINGREQ, right after it and with its id unless that is 0; each such packet but PUBREC, handled in service while TCP takes what is sent, is answered |
| `MqttReplies.HandledLive` | mqtt/mqtt.c:541-545 | in service there is a connection, so only a refused send keeps a packet from being answered |
| `MqttDelivery.QueueDelivered` | mqtt/mqtt.c:1107-1182 | liveness: with a server that answers as it should, every queued packet is given to TCP, answered and gone, in order, until nothing is left |
| `MqttDelivery.OneDelivered` | mqtt/mqtt.c:1107-1182 | one exchange: the oldest packet goes out at the next run of the task, and leaves with its answer |
| `MqttService.IntoService` | mqtt/mqtt.c:474-540 | over every run the client comes into service only by an accepting CONNACK while its CONNECT is awaited |
| `MqttService.KeepaliveComes` | mqtt/mqtt.c:702-720 | an idle client decides to ping after more than half the keepalive time, and not before |
| `MqttService.KeepaliveSent` | mqtt/mqtt.c:194-255 | then the task gives TCP a PINGREQ, and its answer is awaited |
| `MqttService.ConnectingTimesOut` | mqtt/mqtt.c:728-736 | a connection that is not established in time is begun anew, and not before |
| `MqttService.DisconnectFinal` | mqtt/mqtt.c:1530-1537 | from MQTT_Disconnect on the client does not connect again by itself, over every list of events without a connection established or an address found |
| `MqttService.DisconnectConfirmed` | mqtt/mqtt.c:777-787 | when TCP confirms the disconnect the client is disconnected |
| `MqttFailures.DisconnectTooEarly` | mqtt/mqtt.c:1530-1537 | a counterexample to both and to the end of every wait, where the timer is off: a connection established after MQTT_Disconnect comes into use, and its wait for CONNACK outlasts any number of seconds |
| `MqttTrace.EndOfPublish` | mqtt/mqtt.c:580-622 | a published packet leaves by PUBCOMP if and only if no PUBACK for it is handled before a PUBREC for it, and by PUBACK if and only if no PUBREC for it is handled, whatever its QoS |
| `MqttTrace.FinalAckByQos` | mqtt/mqtt.c:580-622 | so with a server that never answers QoS 1 by PUBREC or QoS 2 by PUBACK, QoS 1 means PUBACK, and QoS 2 means PUBREC, PUBREL and PUBCOMP, in this order |
| `MqttFailures.PubackEndsQos2` | mqtt/mqtt.c:580-588 | a counterexample to the same without the condition: a run from the start in which a QoS 2 packet leaves on a PUBACK alone |
| `MqttFailures.PubcompEndsQos1` | mqtt/mqtt.c:588-622 | another: a QoS 1 packet leaves on PUBREC and PUBCOMP |
| `MqttClient.Client.Handle` | mqtt/mqtt.c:112-1191 | every event is one step of the state machine over the whole state, keeps the invariant, and takes nothing back of what was queued, left or happened |
| `MqttRuns.DeliveredInOrder` | mqtt/mqtt.c:1035-1191 | at least once, instance by instance: the packets that left, stray drops apart, are in order a subsequence of the sends from the queue |
| `MqttRuns.RunKeeps` | mqtt/mqtt.c:112-1191 | the invariant over every run of events |
| `MqttRuns.NextKeeps` | mqtt/mqtt.c:112-1191 | every event keeps the invariant and takes nothing back |
| `MqttReceived.HandledAsReceived` | mqtt/mqtt.c:427-670 | over every run in which nothing is cleared, the packets handled and the bytes still buffered are exactly what TCP received; so of the packets a server sends, however cut into chunks, the first are handled, in order |
| `MqttReceived.StepAccepts` | mqtt/mqtt.c:427-670 | no event but a clearing one loses, repeats or reorders a received byte |
| `MqttRuns.NeverLeaves` | mqtt/mqtt_msg.c:229-289 | over every run with a server that acknowledges no id 0, a QoS 1 or 2 PUBLISH without payload, or a SUBSCRIBE with two length bytes, never leaves the queue, and nothing behind it does |
| `MqttFailures.EmptyPayloadWaits` | mqtt/mqtt_msg.c:229-289 | a run from the start in which the PUBACK of such a packet, with the id it carries, leaves it waiting |
| `MqttRuns.OneWaitAtATime` | mqtt/mqtt.c:194-255 | in service the client never waits for a queued packet and for an automatic PINGRESP at once; the packet awaited is the oldest, was sent, and the timeout is running |
| `MqttRuns.PopsExactly` | mqtt/mqtt.c:549-637 | in service, an incoming packet drops the oldest queued one if and only if it is its awaited final ack (PUBCOMP after PUBREC, no PUBACK after it), or a PUBACK with id 0 comes after a QoS 0 packet |
| `MqttRuns.EveryWaitEnds` | mqtt/mqtt.c:702-758 | while the timer runs: over every list of events with as many ticks as the wait has left, in which no packet handled answers the wait or is a matching PUBREC, the connection has been given up at some point: torn down by the client, unless something outside ended it |
| `MqttFailures.PubrecKeepsWaiting` | mqtt/mqtt.c:588-600 | a counterexample to the same without the condition on PUBREC: for any number of seconds a broker that repeats PUBREC keeps the client waiting in service |
| `MqttFailures.PubrecRun` | mqtt/mqtt.c:588-600 | such a run from the start: into service, a publish, the task, and then PUBREC every second |
| `MqttRuns.GoesOn` | mqtt/mqtt.c:112-1191 | as long as no answer and no PUBREC is handled, every event in use of the connection keeps the wait as it is, and only a tick takes one from its time |
| `MqttFailures.ReconnectsInTime` | mqtt/mqtt.c:702-758 | a client waiting to reconnect gets there by the timer alone if and only if no wait of the lost connection runs out first |
| `MqttFailures.ErrorWhileWaiting` | mqtt/mqtt.c:870-884 | a connection error with anything awaited ends, by the timer alone, in a teardown and not in the reconnect |
| `MqttFailures.ErrorRun` | mqtt/mqtt.c:870-884 | such a run from the start: into service, a publish, the task, an error, and six seconds |
| `MqttFailures.ResentWithoutDup` | mqtt/mqtt.c:1107-1182 | a run from the start in which a packet is sent again after a reconnect, with the same bytes and DUP 0 |
| `MqttFailures.StrayAckDropsUnsent` | mqtt/mqtt.c:580-588 | a run from the start: PUBACK with id 0 after a QoS 0 publish drops a packet that was never sent |
| `MqttFailures.TwoPacketsOneId` | mqtt/mqtt.c:802-862 | a run from the start: after a reconnect two queued packets have id 1 |
| `MqttRuns.IdsDistinct` | mqtt/mqtt_msg.c:76-90 | ids are never 0; of those given since TCP connected last, any fewer than 65536 in a row are distinct, and the next repeats |
| `MqttRuns.QueuedIdsDistinct` | mqtt/mqtt_msg.c:76-90 | the packets still queued of those built since TCP connected last have different ids, as long as fewer than 65536 ids were given since |
| `MqttTrace.Departs` | mqtt/mqtt.c:1107-1182 | the oldest packet leaves: nothing is lost or reordered |
| `MqttClient.StrayAckRun` | mqtt/mqtt.c:580-588 | a new client takes the run in which an ack of id 0 drops a packet never sent |
| `MqttClient.ReconnectIdRun` | mqtt/mqtt.c:802-862 | a new client takes the run after which two queued packets have one id |
| `MqttClient.EarlyPubackRun` | mqtt/mqtt.c:580-588 | a new client takes the run in which a PUBACK ends a QoS 2 publish |
| `MqttClient.TakeRun` | mqtt/mqtt.c:112-1191 | a new client takes any run of the state machine |
| `MqttClient.Client.constructor` | mqtt/mqtt.c:1233-1382 | a new client |
| `MqttClient.Client.Task` | mqtt/mqtt.c:1035-1191 | a buffered packet first, then exactly what the state asks for |
| `MqttClient.Client.RunState` | mqtt/mqtt.c:1077-1191 | what each state of the task does to packets, waits and connection |
| `MqttClient.Client.SendNext` | mqtt/mqtt.c:1107-1182 | nothing is sent while anything is outstanding; a send error keeps the queue; otherwise the oldest packet goes out unchanged, and stays until its ack |
| `MqttClient.Client.ReadNext` | mqtt/mqtt.c:1119-1175 | reading, and restoring pointer and count, is a pure look |
| `MqttClient.Client.SendKeepalive` | mqtt/mqtt.c:194-255 | a ping goes out only when nothing is outstanding |
| `MqttClient.Client.Recv` | mqtt/mqtt.c:427-670 | at most one packet is handled, the front of the stream, and removed; the buffer holds the received bytes not handled |
| `MqttClient.Client.HandleFront` | mqtt/mqtt.c:463-661 | an incomplete packet waits, a malformed or oversized one clears the buffer |
| `MqttClient.Client.TakeFront` | mqtt/mqtt.c:472-661 | the packet is handled and the rest moves up |
| `MqttClient.Client.HandlePacket` | mqtt/mqtt.c:485-643 | handling depends on the state: CONNACK while connecting, everything in service, nothing otherwise |
| `MqttClient.Client.HandleData` | mqtt/mqtt.c:543-641 | what each kind of packet does in service: acks, the QoS 2 exchange, pings |
| `MqttClient.Client.HandlePingResp` | mqtt/mqtt.c:623-640 | an automatic ping is answered first, only then a queued one |
| `MqttClient.Client.HandleConnAck` | mqtt/mqtt.c:490-542 | only an accepting CONNACK brings the client into service |
| `MqttClient.Client.DropOldest` | mqtt/mqtt.c:549-558 | the oldest packet leaves with the places of its send and its ack |
| `MqttClient.Client.SendAck` | mqtt/mqtt.c:70-109 | an acknowledgement is sent at once, or the connection is given up |
| `MqttClient.Client.SentCallback` | mqtt/mqtt.c:678-700 | the send timeout ends with the sending, unless an ack is awaited |
| `MqttClient.Client.Timer` | mqtt/mqtt.c:702-758 | one second: state, ping and message are counted in this order |
| `MqttClient.Client.Disconnected` | mqtt/mqtt.c:761-792 | waits and received bytes are forgotten, queued packets are not |
| `MqttClient.Client.Reconnected` | mqtt/mqtt.c:870-884 | a connection error asks for a reconnect and clears nothing |
| `MqttClient.Client.TcpConnected` | mqtt/mqtt.c:802-862 | the message record is cleared, packet id included; CONNECT goes out and is awaited |
| `MqttClient.Client.DnsFound` | mqtt/mqtt.c:112-164 | a late DNS answer |
| `MqttClient.Client.Connect` | mqtt/mqtt.c:1428-1527 | a connection begins with a clean slate; the queue stays |
| `MqttClient.Client.DeleteTcp` | mqtt/mqtt.c:263-284 | what belonged to the connection goes with it |
| `MqttClient.Client.Disconnect` | mqtt/mqtt.c:1530-1537 | a wanted disconnect |
| `MqttClient.Client.Publish` | mqtt/mqtt.c:897-931 | the whole packet is queued, or nothing; an id may be used up either way |
| `MqttClient.Client.Subscribe` | mqtt/mqtt.c:941-967 | the same for SUBSCRIBE |
| `MqttClient.Client.PingRequest` | mqtt/mqtt.c:1010-1032 | the same for a queued PINGREQ |
| `MqttStream.ReceiveAll` | mqtt/mqtt.c:443-670 | for every cut of a packet stream exactly its packets are handled, in order, unless the buffer overflows; it never does while the task keeps up and each chunk fits behind a part of a packet |
| `MqttStream.TakenInOrder` | mqtt/mqtt.c:463-661 | packets taken off the front are those of the stream |
| `MqttStream.LessThanAPacket` | mqtt/mqtt.c:463-472 | with no complete packet at the front, less than one is buffered |
| `MqttStream.StreamBuffer.Append` | mqtt/mqtt.c:443-460 | a chunk is appended, or everything is cleared |
| `MqttStream.StreamBuffer.Drop` | mqtt/mqtt.c:655-661 | the rest moves up over the packet handled |
| `MqttMessage.GetPacketLength` | mqtt/mqtt.c:402-424 | the length of the packet at the front: 0 while the header is incomplete, -1 when malformed |
| `MqttMessage.PacketRecognised` | mqtt/mqtt.c:402-424 | the length of every built packet is found as soon as its header is there |
| `MqttMessage.LengthReadBack` | mqtt/mqtt.c:402-424 | every Remaining Length of at most four bytes is read back |
| `MqttMessage.LengthExtends` | mqtt/mqtt.c:402-424 | bytes that follow cannot change a length |
| `MqttMessage.PublishRoundTrip` | mqtt/mqtt_msg.c:154-289 | topic, payload, QoS and id of a built PUBLISH are read back; only an empty payload with QoS > 0, and then the id, is lost |
| `MqttMessage.SubscribeRoundTrip` | mqtt/mqtt_msg.c:229-289 | the id of a SUBSCRIBE is read back if and only if its Remaining Length is below 128 |
| `MqttMessage.AckRoundTrip` | mqtt/mqtt_msg.c:229-289 | type and id of an acknowledgement are read back |
| `MqttMessage.PingRoundTrip` | mqtt/mqtt_msg.c:471-481 | a ping is two bytes and has no id |
| `MqttMessage.IdsCycle` | mqtt/mqtt_msg.c:76-90 | the counter never gives 0, and passes 65535 ids before one comes again, as long as it is not cleared |
| `MqttMessage.PublishLayout` | mqtt/mqtt_msg.c:377-401 | byte by byte, for every topic, payload, QoS, retain flag and id (section 3.3 of MQTT 3.1.1) |
| `MqttMessage.SubscribeLayout` | mqtt/mqtt_msg.c:436-455 | byte by byte (section 3.8) |
| `MqttMessage.AckLayout` | mqtt/mqtt_msg.c:403-434 | byte by byte (sections 3.4 to 3.7) |
| `MqttMessage.PingLayout` | mqtt/mqtt_msg.c:470-486 | byte by byte (sections 3.12 and 3.13) |
| `MqttMessage.Connection.Init` | mqtt/mqtt_msg.c:128-133 | the message record is cleared, packet id included |
| `MqttMessage.Connection.AppendMessageId` | mqtt/mqtt_msg.c:76-90 | the id given, or the next one; never 0 but for lack of room |
| `MqttMessage.Connection.AppendString` | mqtt/mqtt_msg.c:63-74 | length and bytes, or nothing |
| `MqttMessage.Connection.FiniMessage` | mqtt/mqtt_msg.c:105-126 | the header right before the body, with one or two length bytes, is the packet |
| `MqttMessage.Connection.Publish` | mqtt/mqtt_msg.c:377-401 | a PUBLISH is built exactly when topic and payload fit |
| `MqttMessage.Connection.Subscribe` | mqtt/mqtt_msg.c:435-453 | a SUBSCRIBE likewise |
| `MqttMessage.Connection.Ack` | mqtt/mqtt_msg.c:403-433 | the four acknowledgements, with a new id in place of 0 |
| `MqttMessage.Connection.Ping` | mqtt/mqtt_msg.c:471-481 | PINGREQ and PINGRESP |
| `MqttMessage.GetPublishTopic` | mqtt/mqtt_msg.c:154-181 | the topic, if it lies inside the buffer, for any buffer |
| `MqttMessage.GetPublishData` | mqtt/mqtt_msg.c:183-227 | the payload, up to the end of the packet or of the buffer |
| `MqttMessage.GetId` | mqtt/mqtt_msg.c:229-289 | the packet id, and 0 without one, for any buffer |
| `MqttMessage.SkipsField` | mqtt/mqtt_msg.c:154-170 | skipping the length field of any buffer ends behind the field that the stream reader decodes |
| `Queue.Queue.Puts` | mqtt/queue.c:41-58 | a packet is appended to the sequence of packets, or everything is as it was, also after the ring has wrapped |
| `Queue.Queue.Gets` | mqtt/queue.c:60-63 | the oldest packet comes out, cut to the buffer |
| `Queue.Queue.IsEmpty` | mqtt/queue.c:65-70 | empty exactly when no packet is queued |
| `Queue.Queue.RollBack` | mqtt/queue.c:41-58 | a snapshot of pointers and count brings the packets back |
| `Queue.Queue.Peek` | mqtt/mqtt.c:1115-1137 | Gets and a restored read pointer only look |
| `Queue.FramesInjective` | mqtt/proto.c:13-128 | the bytes in the ring determine the packets |
| `Proto.AddRb` | mqtt/proto.c:106-128 | the frame is written whole or -1 returned, and what the ring held stays |
| `Proto.ParseRb` | mqtt/proto.c:56-69 | whatever the parser started with, the packet comes out and the next frame stays |
| `Proto.Parser.ParseByte` | mqtt/proto.c:13-47 | one byte of the frame |
| `Proto.FlipTwice` | mqtt/proto.c:27-45 | an escaped byte comes back and never looks special |
| `RingBuffer.RingBuffer.Put` | mqtt/ringbuf.c:32-46 | a byte is appended unless the ring is full |
| `RingBuffer.RingBuffer.Get` | mqtt/ringbuf.c:53-67 | the oldest byte is removed |
| `RingBuffer.RingBuffer.constructor` | mqtt/ringbuf.c:16-25 | an empty ring |
| `RingBuffer.RingBuffer.Oldest` | mqtt/queue.c:41-58 | pointers put back show the oldest bytes again |
| `Envelope.OpenSealed` | user/crypto/crypto.c:68-156 | opening undoes sealing for every key, vector, topic and message, and the envelope is at most 64 bytes longer |
| `Envelope.SealedParts` | user/crypto/crypto.c:68-106 | a tag over topic, vector and ciphertext, then the vector, then the ciphertext of the message filled up by 1 to 16 bytes of their number |
| `Envelope.OpenExactly` | user/crypto/crypto.c:109-156 | an envelope opens to a message if and only if its tag is right and it decrypts to the message and such padding |
| `Envelope.Crypto.Encrypt` | user/crypto/crypto.c:68-106 | the buffer holds the sealed message |
| `Envelope.Crypto.Decrypt` | user/crypto/crypto.c:109-156 | the message comes back exactly when tag and padding are right, and 0 otherwise |
| `Envelope.Crypto.Unpad` | user/crypto/crypto.c:141-155 | padding is removed exactly when all its bytes are right |
| `Envelope.Crypto.Fill` | user/crypto/crypto.c:78-90 | vector, message and padding, as section 6.3 of RFC 5652 asks |
| `Envelope.Crypto.MacOf` | user/crypto/crypto.c:98-103 | the tag covers topic, vector and ciphertext |
| `Envelope.Crypto.constructor` | user/crypto/crypto.c:22-65 | the two keys are the halves of the master key digest |
| `Envelope.UnpadPadded` | user/crypto/crypto.c:75-90 | unpadding undoes padding, also of a whole block |
| `Cbc.DecryptEncrypt` | user/crypto/aes.c:537-617 | CBC decryption undoes encryption for every key schedule, vector and text (section 6.2 of NIST SP 800-38A) |
| `Cbc.EncryptBlocks` | user/crypto/aes.c:537-571 | every block of the ciphertext is the encryption of its block of the text plus the ciphertext block before, or the vector |
| `Cbc.EncryptBuffer` | user/crypto/aes.c:537-575 | in place, with the previous ciphertext block read from the buffer itself as vector |
| `Cbc.DecryptBuffer` | user/crypto/aes.c:578-617 | from one buffer to another, the vectors read from the input |
| `Cbc.XorWith` | user/crypto/aes.c:527-534 | the vector may lie in the same buffer |
| `Aes.CipherInverse` | user/crypto/aes.c:419-468 | InvCipher inverts Cipher for every block and key schedule (sections 5.1 and 5.3 of FIPS 197) |
| `Aes.MixColumnsInverse` | user/crypto/aes.c:313-369 | InvMixColumns inverts MixColumns |
| `Aes.ShiftRowsInverse` | user/crypto/aes.c:277-414 | the row shifts cancel |
| `Aes.SubBytesInverse` | user/crypto/aes.c:261-385 | the substitutions cancel |
| `Aes.RoundsInverse` | user/crypto/aes.c:419-468 | the inverse rounds undo the rounds, from the last back to the first |
| `Aes.CipherInPlace` | user/crypto/aes.c:419-442 | the rounds in place change one block of the buffer and nothing else |
| `Aes.InvCipherInPlace` | user/crypto/aes.c:445-468 | the inverse rounds likewise |
| `Aes.KeyExpansion` | user/crypto/aes.c:178-241 | the key schedule word by word (section 5.2 of FIPS 197) |
| `Aes.ExpandedBytes` | user/crypto/aes.c:178-241 | what that schedule is, for every key, without the functions that compute it: it begins with the key, and byte r of a later word is the sum of byte r four words before and byte r one word before; in every fourth word the S-box value of byte (r + 1) mod 4 takes the place of the latter, and for r = 0 a power of {02} is added |
| `AesExample.CipherOfExample` | user/crypto/aes.c:419-442 | the example of the standard, through every round key and every step of every round (appendix C.1 of FIPS 197) |
| `Aes.RconPowers` | user/crypto/aes.c:142-158 | the round constants are the powers of {02} |
| `Aes.AddRoundKey` | user/crypto/aes.c:246-256 | the round key is added to the block |
| `Aes.SubBytesInPlace` | user/crypto/aes.c:261-271 | in place |
| `Aes.InvSubBytesInPlace` | user/crypto/aes.c:375-385 | in place |
| `Aes.ShiftRowsInPlace` | user/crypto/aes.c:277-303 | three cycles through one temporary are the row shifts |
| `Aes.InvShiftRowsInPlace` | user/crypto/aes.c:388-414 | their inverse |
| `Aes.MixColumnsInPlace` | user/crypto/aes.c:313-326 | with one doubling a byte |
| `Aes.InvMixColumnsInPlace` | user/crypto/aes.c:353-369 | from x and its doubles |
| `AesSBox.SBoxMeaning` | user/crypto/aes.c:165-168 | the table is inversion in GF(2^8) followed by the affine map (section 5.1.1 of FIPS 197) |
| `AesSBox.SubInverse` | user/crypto/aes.c:165-174 | the two tables are inverse |
| `AesField.DoubleLinear` | user/crypto/aes.c:306-309 | xtime is linear |
| `AesField.MixByteByDifference` | user/crypto/aes.c:313-326 | the form with the sum of the column is {02}a + {03}b + c + d |
| `AesField.UnmixByte` | user/crypto/aes.c:313-369 | the inverse coefficients give the byte back |
| `Sha256.Context.Update` | user/crypto/sha256.c:291-334 | all bytes are absorbed, for every split into calls |
| `Sha256.Context.Final` | user/crypto/sha256.c:337-399 | the digest is the one-shot digest of all bytes fed; the context is wiped |
| `Sha256.Context.Transform` | user/crypto/sha256.c:209-288 | the 16-word schedule that overwrites its own buffer, which may be the data, computes the compression of the 64-word schedule |
| `Sha256Example.DigestOfAbc` | user/crypto/sha256.c:209-399 | the digest of "abc" is the one of the standard, through all 64 words and rounds |
| `Sha256Meaning.ConstantsFromPrimes` | user/crypto/sha256.c:159-176 | constant i is the first 32 bits of the fractional part of the cube root of the i-th prime (section 4.2.2 of FIPS 180-4) |
| `Sha256Meaning.InitialFromPrimes` | user/crypto/sha256.c:179-188 | the initial hash value, likewise from square roots (section 5.3.3) |
| `Sha256Meaning.PrimesInOrder` | user/crypto/sha256.c:159-176 | those are the first 64 primes, none left out |
| `Sha256Meaning.ChSelects` | user/crypto/sha256.c:131 | where x has a 1 the result has the bit of y, and elsewhere that of z |
| `Sha256Meaning.MajDecides` | user/crypto/sha256.c:132 | a 1 where two of the three have one |
| `Sha256Meaning.LengthReadBack` | user/crypto/sha256.c:371-390 | the length field is the length to base 256, most significant byte first (section 5.1.1) |
| `Sha256.Context.TakeWords` | user/crypto/sha256.c:227-251 | the first sixteen rounds, while the block is copied |
| `Sha256.Context.Expand` | user/crypto/sha256.c:253-274 | the next schedule word replaces the oldest |
| `Sha256.Context.Pad` | user/crypto/sha256.c:342-370 | the padding takes one block or two |
| `Sha256.Context.Init` | user/crypto/sha256.c:199-206 | nothing fed |
| `Sha256.RollingStep` | user/crypto/sha256.c:253-274 | sixteen places always hold the last sixteen words |
| `Sha256.NextWord` | user/crypto/sha256.c:253-274 | the rolling sum is the schedule recurrence of section 6.2.2 of FIPS 180-4 |
| `Sha256.PaddedDigest` | user/crypto/sha256.c:337-390 | the padding of section 5.1.1 of FIPS 180-4, seen from the last block |
| `Sha256.HashOneMore` | user/crypto/sha256.c:291-334 | hashing block by block |
| `Hmac.HmacContext.constructor` | user/crypto/hmac-sha256.c:30-46 | both pads from the key; a key longer than a block is hashed first |
| `Hmac.HmacContext.Update` | user/crypto/hmac-sha256.c:49-51 | the message grows |
| `Hmac.HmacContext.Final` | user/crypto/hmac-sha256.c:54-63 | the tag of section 2 of RFC 2104 over everything fed |
| `Hmac.MacOfKey` | user/crypto/hmac-sha256.c:30-63 | for every key of at most a block: the inner hash takes it changed by 0x36, the outer one by 0x5c |
| `Hmac.MacOfLongKey` | user/crypto/hmac-sha256.c:34-35 | a longer key stands for its digest |
| `Hmac.Raw` | user/crypto/sha256.c:424-430 | a one-shot digest |
| `Crc16.Crc` | user/utils.c:65-70 | the table loop computes the remainder of the bit-by-bit division by 0x1021 |
| `Crc16.Table` | user/utils.c:28-61 | every table entry is eight bit steps |
| `Crc16.StepIsEight` | user/utils.c:65-70 | one table step is eight bit steps, for every register and byte |
| `Crc16.DivideByte` | user/utils.c:65-70 | feeding a byte bit by bit is one table step |
| `Crc16.ResidueZero` | user/utils.c:65-70 | a message followed by two bytes leaves no remainder if and only if they are its checksum |
| `Crc16.BurstDetected` | user/utils.c:65-70 | two messages that differ only within 16 consecutive bits have different remainders |
| `Crc16.AgreeingBits` | user/utils.c:65-70 | registers that differ cannot meet while the message bits agree |
| `Kmp.UnstuffStuffed` | user/kamstrup/kmp.c:559-602 | unstuffing undoes stuffing |
| `Kmp.StopOnlyLast` | user/kamstrup/kmp.c:559-580 | a frame contains start, acknowledge and stop bytes only at its ends |
| `Kmp.StuffedByteIs` | user/kamstrup/kmp.c:559-580 | five bytes are escaped, each by its complement to 255, and no other |
| `Kmp.CrcOkIsResidueZero` | user/kamstrup/kmp.c:278-290 | the check passes if and only if everything before the stop byte divides evenly |
| `Kmp.LastByteUnchecked` | user/kamstrup/kmp.c:239-347 | a counterexample to the same without the last clause, run through the receiver: a frame whose stop byte is escaped passes, unstuffed to another last byte |
| `Kmp.FrameBurst` | user/kamstrup/kmp.c:278-290 | of two unstuffed frames of one length that differ only within 16 consecutive bits both pass the check if and only if one passes and they differ in the last byte alone |
| `Kmp.DecodeReply` | user/kamstrup/kmp.c:239-347 | the receiver, run on a framed reply with one to eight registers, returns 1 and exactly them, also when the stop byte arrives escaped |
| `Kmp.DecodeTypeReply` | user/kamstrup/kmp.c:294-299 | the receiver, run on a framed type reply, returns 1 and exactly the meter type and the software revision, for all of them |
| `Kmp.DecodeSerialReply` | user/kamstrup/kmp.c:300-304 | the receiver, run on a framed serial number reply, returns 1 and exactly that number, for all of them |
| `Kmp.RegistersReadBack` | user/kamstrup/kmp.c:305-327 | consecutive registers are read back |
| `Kmp.Kmp.DecodeFrame` | user/kamstrup/kmp.c:239-347 | result code and fields for every frame; a frame that is too short or not ended is left alone |
| `Kmp.Kmp.Application` | user/kamstrup/kmp.c:292-337 | the fields of a frame with the right checksum |
| `Kmp.Kmp.ByteStuff` | user/kamstrup/kmp.c:559-580 | in place behind the start byte; a frame that would not fit is left alone |
| `Kmp.Kmp.ByteUnstuff` | user/kamstrup/kmp.c:583-602 | in place behind the start byte |
| `Kmp.Kmp.Finish` | user/kamstrup/kmp.c:122-135 | checksum, stuffing and stop byte make a frame |
| `Kmp.Kmp.GetShort` | user/kamstrup/kmp.c:103-172 | the type and serial requests |
| `Kmp.Kmp.GetRegister` | user/kamstrup/kmp.c:181-234 | a request for at most eight registers |
| `Kmp.RequestLayout` | user/kamstrup/kmp.c:181-234 | a register request names destination, command and count, and every register, high byte first |
| `Kmp.ShortRequests` | user/kamstrup/kmp.c:103-172 | the type and the serial number request, byte by byte on the wire |
| `Kmp.Kmp.FrameCrc` | user/kamstrup/kmp.c:352-363 | the checksum of the payload |

## Left out

heatshrink

- `HeatshrinkRoundTrip.RoundTrip`: w <= 14; at w = 15 the encoder's search depends on uninitialised index memory. The decoder is modelled up to w = 15.
- `HeatshrinkRoundTrip.Compress`: w <= 14, for the same reason.
- `HeatshrinkEncoder.Encoder.constructor`: w <= 14, for the same reason.
- NULL-argument errors, allocation, `free`, `reset` of a used codec and the debug output.
- `HeatshrinkEncoder.NothingLonger`: does not cover matches that begin in the oldest 2^l bytes of the stream once the first window is nearly used up, because the PARTIAL flag excludes some of them from the search.
- `user/espfs.c`, which drives the decoder.

OTA

- rBoot's writer and boot configuration: an abstract writer, and a staging call that may fail; `rboot_set_temp_rom` is recorded before its outcome is known.
- `OtaUpdate.Ota.TcpRecv`: data comes only while the connection of the current attempt is established, not from an earlier one.
- `OtaUpdate.Ota.TcpConnect`: a connection is established at most once in an attempt.
- The flags that only choose a status message (which failures were seen, whether DNS is pending), the messages, the progress timer, the Wi-Fi scanner and the restart.
- The text of the HTTP request, which asks for everything from `requestOffset` on.
- URL and SHA-256 hex parsing in `start_ota_update`: whether they succeed is part of the event.
- The fields about the current response are grouped in one record, and `ota_firmware_size` and its known flag in one option.

MQTT

- Application callbacks run as events of their own, after the packet that caused them; a callback that deletes the client is not modelled.
- UNSUBSCRIBE (`mqtt_get_id` has no case for it), SSL, deletion of a client, the CONNECT packet's contents, the published callback and its marker.
- `espconn_disconnect`: its effect is the disconnect event, whenever it comes.
- `MqttClient.Client.constructor`: queue rings of at most 32767 bytes, and output buffers of at most 16386, whose lengths the 16-bit results can tell.
- `MqttMessage.GetPublishData`: length fields of at most four bytes; a longer one would shift out of the C `int`.
- `Proto.ParseRb`: the ring holds whole frames, as `Proto.AddRb` writes them.
- `MqttClient.Client.Handle`: a TCP connection is established at most once for each `MQTT_Connect`, and not after the client has deleted it.
- QoS 2 is proved to deliver at least once, not exactly once.

Wire

- AES round keys, S-box tables and key pointers are arguments rather than globals; ECB, the string forms of SHA-256 and the one-call HMAC only combine what is modelled.
- `Cbc.DecryptBuffer`: whole blocks only, likewise.
- `Cbc.EncryptBuffer`: whole blocks only, as its callers use it; the copy of a first block before the loop, and the last partial block, are not modelled.
- `Envelope.Crypto.Decrypt`: an authentic envelope is required to be a whole number of blocks behind its 48-byte header, as only whole blocks are ever sealed; a forged one may have any length.
- `Envelope.Crypto.Encrypt`: the random vector is a parameter.
- Messages of 2^61 bytes and more for SHA-256, and of 2^32 and more for the envelope.
- `Kmp.Kmp.DecodeFrame`: the list of registers is a sequence, so the bound of eight of the C array is not modelled.
- `Kmp.Kmp.ByteUnstuff`: frames that end in the stop byte, as the receiver's loop hands them over.
- `Kmp.Kmp.ByteStuff`: frames whose stuffed form is longer than its 1024-byte buffer are excluded.
- Formatting of meter values and units, the serial port, and the meter protocols other than KMP.
- Cryptographic strength: HMAC is only a function over SHA-256.

Elsewhere

- Drivers, the web server, cron, Wi-Fi handling, configuration storage and the MQTT remote procedure handlers.
