# jeromq framing, handshake and ROUTER core in Dafny

This project models the byte-level core of jeromq, the Java implementation of
ZeroMQ, and proves properties of that model. It covers four parts.

- **The frame decoders.** `DecoderBase` copies input into the current target
  buffer and calls `next()` whenever the target is full. The subclasses are
  `V1Decoder`, which reads ZMTP/1.0 frames (a length byte or an escaped 64-bit
  length, a flags byte, then the body), and `V2Decoder`, which reads ZMTP/2.0
  frames (a flags byte with MORE/LARGE, a 1- or 8-byte length, then the body).
  Traits are not used, so one class `Decoding.Decoder` carries the fields of
  the base class and both subclasses and dispatches on a `revision` field.
  The state handlers are lifted into total functions in `handlers.dfy`. The
  whole decoder is also described as a value (`View`, `Step`, `Settle`,
  `Run`), and the class's methods are proved against that description.
- **The ZMTP/2.0 encoder.** `V2Encoder` builds the header in its `tmpbuf` and
  then hands over the body. A round trip is proved: an encoded frame, fed to a
  ZMTP/2.0 decoder, comes back with the same size, MORE flag and bytes.
- **The protocol side of `StreamEngine`.** This covers:
  - the greeting that `plug` sends;
  - the incremental read loop of `handshake`, the classification of the
    peer's greeting as versionless ZMTP/1.0, ZMTP/1.0 or ZMTP/2.0, and the
    choice of codecs;
  - the once-only identity sent by `readMsg`;
  - the once-only identity received and the phony subscription handled by
    `writeMsg`;
  - the decode loop of `inEvent`, including congestion and teardown.

  The socket is modelled as a queue of chunks, one per read, plus a
  "peer closed" flag. The session is a value: the messages `pullMsg` hands
  out, the answers `pushMsg` gives, and the messages it has accepted.
- **The ROUTER socket (`Router`).** This covers:
  - the `anonymous_pipes` set, the `outpipes` table and the generated 5-byte
    identities with their 32-bit wrapping counter;
  - the send machine (`more_out`, `current_out`), including the
    `report_unroutable` policy and `rollback`;
  - the receive machine with its one-message prefetch (`prefetched`,
    `identity_sent`, `more_in`).

  A pipe is an id with its inbound queue, its identity and its outbound side
  (room, unflushed parts, flushed parts). The fair queue is the sequence of
  `(pipe, message)` pairs it will hand out.

Bytes are the newtype `Wire.byte` (0..255). Java's signed `byte`, `int` and
`long` are written out explicitly: `SignedByte`, `ToInt32`, `GetLong`,
`PutLong` and `PutInt`.

The files are `wire.dfy` (module `Wire`), `handlers.dfy` (`Handlers`),
`decoder.dfy` (`Decoding`), `encoder.dfy` (`Encoding`), `engine.dfy`
(`Engine`) and `router.dfy` (`Routing`).

Three behaviours of the code worth knowing, which the model keeps:
- ZMTP/1.0 (13/ZMTP) defines the escaped eight-byte length as an unsigned
  64-bit integer, but `V1Decoder` reads it as a signed `long`
  (`V1Decoder.java:120`). A length with the top bit set is therefore
  refused with `EPROTO` as "not positive", not taken as a huge size.
- The copying path of `decode` never returns -1, because no decoder state is
  negative. It returns the bytes consumed even when `next()` failed. The
  engine's loop acts on the return code of the `next()` call that stopped
  decoding; `Decoding.Decoder.Decode` returns both.
- Generated identities are not checked against `outpipes`. An entry with the
  same name is overwritten (`Router.java:328-349`).

## Model

| member | source | states |
|---|---|---|
| Wire.SignedByte | src/main/java/zmq/V1Decoder.java:82-97 | The Java value of a byte: negative exactly for 0x80..0xFF, -1 exactly for 0xFF, 0 exactly for 0 |
| Wire.MaskedSignedByte | src/main/java/zmq/V1Decoder.java:94-97 | `0xFF & first` on a negative byte gives back its unsigned value |
| Wire.BeUint | src/main/java/zmq/V2Decoder.java:97 | An n-byte big-endian number is below 256^n |
| Wire.BeBytes | src/main/java/zmq/V2Encoder.java:74-81 | A value below 256^n is written as exactly n big-endian bytes |
| Wire.BeUintBeBytes | src/main/java/zmq/V2Encoder.java:74-81 | Reading back the big-endian bytes of a value gives the value |
| Wire.BeBytesBeUint | src/main/java/zmq/V2Decoder.java:93-97 | Re-encoding the value read from bytes gives the same bytes |
| Wire.GetLong | src/main/java/zmq/V2Decoder.java:97 | `getLong` is a signed 64-bit read; it is negative exactly when the top bit of the first byte is set |
| Wire.SizeOf8 | src/main/java/zmq/V1Decoder.java:120 | Eight bytes read unsigned are below 2^64, and at least 2^63 exactly when the first byte is 0x80 or more |
| Wire.PutLong | src/main/java/zmq/V2Encoder.java:81 | `putLong` writes eight bytes |
| Wire.PutLongGetLong | src/main/java/zmq/V2Encoder.java:81 | Writing a long and reading it back gives the same long |
| Wire.ToInt32 | src/main/java/zmq/V2Decoder.java:114 | The `(int)` cast: a Java int that differs from the input by a multiple of 2^32, and the identity on ints |
| Wire.PutInt | src/main/java/zmq/Router.java:332 | `putInt` writes four bytes |
| Wire.PutIntInjective | src/main/java/zmq/Router.java:328-335 | Distinct ints are written as distinct byte strings |
| Handlers.StateCode | src/main/java/zmq/V1Decoder.java:37-40 | The four decoder states are the codes 0..3, none negative, so the `state() < 0` test in the copying path of `decode` never fires and it never returns -1 |
| Handlers.V1LengthByte | src/main/java/zmq/V1Decoder.java:76-112 | 0xFF escapes to the 8-byte length; 0 is EPROTO; above the limit is EMSGSIZE; otherwise the body is the byte minus one (at most 253) and within the limit |
| Handlers.V1Length8 | src/main/java/zmq/V1Decoder.java:114-150 | EPROTO exactly for a length that is not positive as a signed long; accepted exactly when 1 <= length <= 2^31 and length-1 is within the limit; the body is length-1; every refusal carries an error code |
| Handlers.V1FlagsMore | src/main/java/zmq/V1Decoder.java:152-159 | Only the MORE bit (bit 0) of the flags byte is kept |
| Handlers.V2Flags | src/main/java/zmq/V2Decoder.java:121-143 | MORE is bit 0; the LARGE bit (bit 1) selects the 8-byte length, otherwise 1 byte |
| Handlers.V2LengthByte | src/main/java/zmq/V2Decoder.java:68-89 | The byte is read unsigned and zero is accepted; accepted exactly within the limit, else EMSGSIZE |
| Handlers.V2Length8AsWritten | src/main/java/zmq/V2Decoder.java:91-119 | The 8-byte handler as written: a signed comparison, then `(int) msgSize` passed to the allocator; for lengths below 2^63 it is the unsigned check |
| Handlers.V2Length8TopBitTruncated | src/main/java/zmq/V2Decoder.java:97-114 | A length of 2^63+5 passes both checks and the allocator is asked for 5 bytes |
| Handlers.V2Length8AllOnesNegative | src/main/java/zmq/V2Decoder.java:97-114 | Eight 0xFF bytes ask the allocator for -1 bytes |
| Handlers.V2Length8 | src/main/java/zmq/V2Decoder.java:91-119 | Corrected handler: accepted exactly when the unsigned length is at most `Integer.MAX_VALUE` and within the limit, with that size; otherwise EMSGSIZE |
| Handlers.V2Length8Agrees | src/main/java/zmq/V2Decoder.java:97-111 | The corrected and the as-written handler agree on every length below 2^63 |
| Handlers.OneByteLimitBoundary | src/main/java/zmq/V1Decoder.java:99-102 | The size limit is inclusive for one-byte lengths of both revisions (ZMTP/1.0 counts the flags byte) |
| Handlers.EightByteLimitBoundary | src/main/java/zmq/V2Decoder.java:99-105 | The size limit is inclusive for eight-byte lengths of both revisions |
| Decoding.Fresh | src/main/java/zmq/V1Decoder.java:47-57 | A new decoder waits for one byte into `tmpbuf`, in ONE_BYTE_SIZE_READY (ZMTP/1.0) or FLAGS_READY (ZMTP/2.0), with no error |
| Decoding.V1Next | src/main/java/zmq/V1Decoder.java:59-74 | 1 exactly in MESSAGE_READY, which resets to a one-byte wait and keeps the body; -1 sets an errno and keeps state and body; 0 leaves a target with room or the body to read |
| Decoding.V2Next | src/main/java/zmq/V2Decoder.java:51-66 | The same contract for the ZMTP/2.0 handlers |
| Decoding.Step | src/main/java/zmq/DecoderBase.java:183 | `next()` of either revision, with the contract above |
| Decoding.Machine | src/main/java/zmq/DecoderBase.java:183 | Each revision's `next()` meets what the driver relies on: a return code in -1..1, and progress whenever it returns 0 |
| Decoding.Settle | src/main/java/zmq/DecoderBase.java:114-123 | The inner loop stops with -1, 0 or 1, and on 0 the target has room |
| Decoding.Fill | src/main/java/zmq/DecoderBase.java:130-136 | `readBuf.put(buf)` of n bytes uses up exactly n bytes of the target's room |
| Decoding.Run | src/main/java/zmq/DecoderBase.java:110-137 | Copying `decode`: the bytes consumed never exceed the input; on rc 0 all input is used and the target has room |
| Decoding.ZeroCopyRun | src/main/java/zmq/DecoderBase.java:97-108 | Zero-copy `decode`: advance by the bytes read in place, then settle |
| Decoding.ZeroCopyMatchesCopy | src/main/java/zmq/DecoderBase.java:94-137 | Whenever the input fits the target, the zero-copy path gives the same code and state as the copying path |
| Decoding.RunSettled | src/main/java/zmq/DecoderBase.java:111-123 | Settling the decoder before `decode` changes nothing |
| Decoding.RunShift | src/main/java/zmq/DecoderBase.java:110-137 | Bytes before the loop position are never looked at again |
| Decoding.RunAppend | src/main/java/zmq/DecoderBase.java:110-137 | Decoding `a + b` is decoding `a` and then, unless `a` stopped it, decoding `b` from the state `a` left |
| Decoding.FeedChunks | src/main/java/zmq/DecoderBase.java:92-138 | Feeding chunk by chunk, stopping at the first message or error, keeps the decoder well formed |
| Decoding.ChunkingInvariance | src/main/java/zmq/DecoderBase.java:110-137 | However the stream is cut into chunks, the decoder reaches the same code and state as when fed it whole |
| Decoding.CopyBytes | src/main/java/zmq/DecoderBase.java:131-135 | The byte copy of `put` overwrites exactly the n bytes at the position |
| Decoding.Decoder.constructor | src/main/java/zmq/DecoderBase.java:49-58 | A new decoder is `Fresh` for its revision and not in zero-copy mode |
| Decoding.Decoder.GetBuffer | src/main/java/zmq/DecoderBase.java:61-81 | Zero-copy exactly when the target's room is at least `bufsize`; the room offered is then the target's room, else `bufsize`; the state is unchanged |
| Decoding.Decoder.Allocate | src/main/java/zmq/V1Decoder.java:105 | `allocate` gives a fresh zeroed body of the requested size with the given MORE flag |
| Decoding.Decoder.ExpectFlags | src/main/java/zmq/V1Decoder.java:105-109 | Allocate the body, then wait for the one flags byte |
| Decoding.Decoder.V1OneByteSizeReady | src/main/java/zmq/V1Decoder.java:76-112 | The handler's return code and new state are those of `V1Next` |
| Decoding.Decoder.V1EightByteSizeReady | src/main/java/zmq/V1Decoder.java:114-150 | The handler's return code and new state are those of `V1Next` |
| Decoding.Decoder.V1FlagsReady | src/main/java/zmq/V1Decoder.java:152-159 | The handler's return code and new state are those of `V1Next` |
| Decoding.Decoder.V2FlagsReady | src/main/java/zmq/V2Decoder.java:121-143 | The handler's return code and new state are those of `V2Next` |
| Decoding.Decoder.ExpectBody | src/main/java/zmq/V2Decoder.java:84-87 | Allocate the body with the remembered flags and make it the target in MESSAGE_READY |
| Decoding.Decoder.V2OneByteSizeReady | src/main/java/zmq/V2Decoder.java:68-89 | The handler's return code and new state are those of `V2Next` |
| Decoding.Decoder.V2EightByteSizeReady | src/main/java/zmq/V2Decoder.java:91-119 | The handler, with the length read unsigned, gives the code and state of `V2Next` |
| Decoding.Decoder.MessageReady | src/main/java/zmq/V1Decoder.java:161-169 | Returns 1 and rewinds to a one-byte header wait, as `Step` says (also `V2Decoder.java:145-154`) |
| Decoding.Decoder.Next | src/main/java/zmq/V1Decoder.java:59-74 | The dispatch gives exactly `Step` |
| Decoding.Decoder.Put | src/main/java/zmq/DecoderBase.java:131-135 | The copied bytes land in the target at its position (`Fill`) |
| Decoding.Decoder.Decode | src/main/java/zmq/DecoderBase.java:92-138 | Zero-copy: consumes the whole input and returns the code of `ZeroCopyRun`; copying: returns the bytes consumed, with the code and state of `Run` |
| Decoding.Decoder.NextWhileFull | src/main/java/zmq/DecoderBase.java:114-123 | The inner loop gives exactly `Settle` |
| Decoding.Decoder.DecodeInPlace | src/main/java/zmq/DecoderBase.java:97-108 | The zero-copy path gives exactly `ZeroCopyRun` |
| Decoding.Decoder.DecodeCopying | src/main/java/zmq/DecoderBase.java:110-137 | The copying loop gives exactly `Run`, and returns the bytes consumed |
| Decoding.Decoder.CopyIn | src/main/java/zmq/DecoderBase.java:130-136 | One copy makes progress, stays within the input and keeps the outcome of the run |
| Decoding.Decoder.Msg | src/main/java/zmq/V1Decoder.java:171-175 | `msg()` is the body of the view with its MORE flag, the message `Pump` hands to `writeMsg` |
| Encoding.HeaderFlags | src/main/java/zmq/V2Encoder.java:65-72 | MORE is set exactly for a message with more parts; LARGE exactly for a size above 255 |
| Encoding.V2Header | src/main/java/zmq/V2Encoder.java:63-89 | Two bytes `[flags, size]` up to 255; otherwise nine bytes, the flags and the size as a 64-bit big-endian value |
| Encoding.Frame | src/main/java/zmq/V2Encoder.java:57-89 | The wire frame `messageReady` and `sizeReady` produce, header then body; `EncoderCycle` and `DecodeFrame` state what it is |
| Encoding.EncoderStep | src/main/java/zmq/V2Encoder.java:44-61 | Corrected `next()`: one handler per call, the two states alternate on the same message, and a step sets the new-message mark exactly when it scheduled the body, the last step of a frame |
| Encoding.EncoderStepAsWritten | src/main/java/zmq/V2Encoder.java:44-55 | `next()` as written with assertions disabled, falling through from `sizeReady` into `messageReady`; `AsWrittenNeverSchedulesBody` and `AsWrittenLosesBody` state what follows |
| Encoding.EncoderCycle | src/main/java/zmq/V2Encoder.java:57-89 | Two steps from MESSAGE_READY emit exactly one frame, header then body, and return to MESSAGE_READY |
| Encoding.AsWrittenNeverSchedulesBody | src/main/java/zmq/V2Encoder.java:44-55 | As written, every `next()` ends with a header pending in SIZE_READY |
| Encoding.AsWrittenLosesBody | src/main/java/zmq/V2Encoder.java:47-51 | For the one-byte message 7, two steps as written emit `[0,1,0,1]` instead of the frame `[0,1,7]` |
| Encoding.V2Encoder.constructor | src/main/java/zmq/V2Encoder.java:34-42 | A new encoder is in MESSAGE_READY with nothing pending |
| Encoding.V2Encoder.Load | src/main/java/zmq/StreamEngine.java:424 | `loadMsg` sets the message in progress and nothing else |
| Encoding.V2Encoder.SizeReady | src/main/java/zmq/V2Encoder.java:57-61 | The body, the last step of a frame, is scheduled with the new-message mark (a new message is taken once it is written), and the encoder returns to MESSAGE_READY |
| Encoding.V2Encoder.MessageReady | src/main/java/zmq/V2Encoder.java:63-89 | The header `V2Header` is written into `tmpbuf` and scheduled, and the encoder goes to SIZE_READY |
| Encoding.V2Encoder.Next | src/main/java/zmq/V2Encoder.java:44-55 | Corrected dispatch: one handler per call, as `EncoderStep` |
| Encoding.V2Encoder.NextAsWritten | src/main/java/zmq/V2Encoder.java:44-55 | The dispatch as written falls through from `sizeReady` into `messageReady` |
| Encoding.ReadFlagsByte | src/main/java/zmq/V2Decoder.java:43-48 | A waiting ZMTP/2.0 decoder reads the first byte of a frame into `tmpbuf[0]` |
| Encoding.ReadLength | src/main/java/zmq/V2Decoder.java:121-143 | The flags handler picks the length width from LARGE and the length bytes are read next |
| Encoding.AcceptEncodedLength | src/main/java/zmq/V2Decoder.java:68-119 | An encoded length within the limit is accepted and a zeroed body of that size awaited |
| Encoding.ReadBody | src/main/java/zmq/V2Decoder.java:145-154 | After the body bytes the decoder reports a complete message and waits for the next frame |
| Encoding.DecodeFrame | src/main/java/zmq/V2Encoder.java:63-89 | Round trip: an encoded message is decoded with the same size, MORE flag and bytes |
| Encoding.DecodeFrameThenRest | src/main/java/zmq/DecoderBase.java:114-122 | Decoding stops right after an encoded frame, whatever follows it |
| Engine.GreetingPrefix | src/main/java/zmq/StreamEngine.java:283-287 | Ten bytes: 0xFF, the identity size plus one as a 64-bit big-endian long, then 0x7F |
| Engine.TypeByte | src/main/java/zmq/StreamEngine.java:577 | `(byte) options.type` keeps every socket type below 256 unchanged |
| Engine.Tail | src/main/java/zmq/StreamEngine.java:576-577 | The two appended bytes complete the preamble to the twelve-byte greeting and announce a revision other than ZMTP/1.0 |
| Engine.Decided | src/main/java/zmq/StreamEngine.java:550-567 | When the read loop may stop: never on no bytes; before the tenth byte only on a first byte other than 0xFF; a versioned preamble waits for the whole greeting; a whole greeting is always decided |
| Engine.Versionless | src/main/java/zmq/StreamEngine.java:550-567 | A decided greeting is versionless exactly when it does not start with a versioned preamble (0xFF and the low bit of the tenth byte) |
| Engine.PeerRevision | src/main/java/zmq/StreamEngine.java:587-627 | ZMTP/2.0 exactly for a versioned twelve-byte greeting whose revision byte is not `Protocol.ZMTP_1_0`, the byte 0 (`StreamEngine.java:33`) |
| Engine.OwnGreetingIsVersioned | src/main/java/zmq/StreamEngine.java:565-581 | The full own greeting is versioned and asks for ZMTP/2.0; its ten-byte prefix alone is undecided |
| Engine.GreetingIsIdentityHeader | src/main/java/zmq/StreamEngine.java:283-287 | A ZMTP/1.0 decoder reads the greeting prefix as the header of an identity message of the identity's size, with MORE set |
| Engine.HeaderSize | src/main/java/zmq/StreamEngine.java:594-598 | `headerSize` is the length of the ZMTP/1.0 header of the identity message: 2 bytes (length byte accepted for that size, flags) below the 0xFF escape, 1 + 8 + 1 from it on |
| Engine.DecidedIsStable | src/main/java/zmq/StreamEngine.java:539-567 | Once decided, the classification does not change as more bytes arrive |
| Engine.SocketRead | src/main/java/zmq/StreamEngine.java:668-684 | A read takes at most the room from the head of the socket; -1 exactly on a closed, drained socket; 0 only when nothing is there |
| Engine.ReadGreeting | src/main/java/zmq/StreamEngine.java:538-582 | The greeting never exceeds twelve bytes; with nothing to read the loop waits without change |
| Engine.ReadGreetingKeepsBytes | src/main/java/zmq/StreamEngine.java:539-541 | The greeting only grows, by the bytes taken from the head of the socket |
| Engine.ReadGreetingDecides | src/main/java/zmq/StreamEngine.java:539-567 | The loop completes only on a decided greeting; a 0-byte read waits with fewer than twelve bytes; -1 only on a closed, drained socket |
| Engine.ReadGreetingTail | src/main/java/zmq/StreamEngine.java:569-581 | The own revision and type are appended exactly when a versioned preamble arrives, and at most once |
| Engine.ReadGreetingVerdictIndependent | src/main/java/zmq/StreamEngine.java:550-567 | Any two ways of cutting the same bytes into reads give the same classification and framing |
| Engine.SessionPull | src/main/java/zmq/StreamEngine.java:700 | `pullMsg` hands out the head of the outbox, or none when it is empty |
| Engine.SessionPush | src/main/java/zmq/StreamEngine.java:729 | `pushMsg` takes the message exactly when it answers 0 |
| Engine.SessionPulls | src/main/java/zmq/StreamEngine.java:700 | k pulls give k answers |
| Engine.ReadMsgStep | src/main/java/zmq/StreamEngine.java:690-712 | Without a custom encoder, after one call the control messages are out |
| Engine.ReadMsgs | src/main/java/zmq/StreamEngine.java:690-712 | k calls of `readMsg` give k answers |
| Engine.PullsOnly | src/main/java/zmq/StreamEngine.java:699-700 | Once initialised, or with a custom encoder, `readMsg` hands out the session's messages and nothing else |
| Engine.IdentityFirstAndOnce | src/main/java/zmq/StreamEngine.java:702-711 | A fresh engine first sends its identity, exactly once, then only session messages |
| Engine.IdentityMsg | src/main/java/zmq/StreamEngine.java:703-704 | The identity message `readMsg` builds from `options.identity`; `IdentityFirstAndOnce` states that it goes out first and once |
| Engine.WriteMsgStep | src/main/java/zmq/StreamEngine.java:719-757 | `identityReceived` and `rxInitialized` are never cleared and the subscription is never re-armed |
| Engine.WriteMsgs | src/main/java/zmq/StreamEngine.java:374-384 | Writing stops early only on -1 or EAGAIN |
| Engine.PassThrough | src/main/java/zmq/StreamEngine.java:728-729 | Once initialised, or with a custom encoder, messages pass straight through to the session |
| Engine.FirstMessagesIn | src/main/java/zmq/StreamEngine.java:731-756 | Into a session that takes every push: the first message goes on flagged IDENTITY only when `recvIdentity` is set, then the `[1]` subscription once if required, then every later message unchanged |
| Engine.WriteMsgControl | src/main/java/zmq/StreamEngine.java:731-756 | For any session answers: -1 exactly when a control push is answered -1 (identity: all flags stay armed; subscription: only the identity is received); otherwise 0 with every flag settled, so an EAGAIN on a control push is swallowed; the session keeps exactly the pushes it answered 0 |
| Engine.SubscriptionMsg | src/main/java/zmq/StreamEngine.java:745-746 | The phony one-byte subscription `[1]`; `FirstMessagesIn` states when it is pushed |
| Engine.MachineResets | src/main/java/zmq/V2Decoder.java:145-154 | Every completed message leaves the decoder waiting for the next frame |
| Engine.SettleReady | src/main/java/zmq/DecoderBase.java:114-123 | The inner loop ends after a completed message in the frame-start state |
| Engine.RunReady | src/main/java/zmq/DecoderBase.java:110-137 | A `decode` that completes a message leaves the decoder waiting for the next frame |
| Engine.RunProgress | src/main/java/zmq/DecoderBase.java:126-136 | A decoder with room consumes at least one byte of non-empty input |
| Engine.Pump | src/main/java/zmq/StreamEngine.java:371-384 | The decode loop leaves a suffix of the input, non-empty only after -1 or EAGAIN |
| Engine.PumpStep | src/main/java/zmq/StreamEngine.java:374-384 | One turn: decode; stop unless a message is complete; hand it to `writeMsg`; stop on -1 or EAGAIN |
| Engine.PumpFrames | src/main/java/zmq/StreamEngine.java:374-384 | Encoded frames fed to a ZMTP/2.0 engine reach `writeMsg` as exactly those messages, in order |
| Engine.StreamEngine.constructor | src/main/java/zmq/StreamEngine.java:121-146 | A new engine is handshaking, with every flag clear and no codecs |
| Engine.StreamEngine.Error | src/main/java/zmq/StreamEngine.java:640-648 | `error()` tears the engine down and unplugs it |
| Engine.StreamEngine.PutGreeting | src/main/java/zmq/StreamEngine.java:283-304 | The prefix goes into the outgoing greeting; unless the encoder is custom, 10 bytes are queued |
| Engine.StreamEngine.Plug | src/main/java/zmq/StreamEngine.java:265-308 | Sends the greeting prefix, then takes in what has arrived |
| Engine.StreamEngine.InEvent | src/main/java/zmq/StreamEngine.java:332-398 | Handshaking is never re-entered; the tail is appended at most once; a congested engine stops reading; a live engine uses up its input |
| Engine.StreamEngine.Resume | src/main/java/zmq/StreamEngine.java:346-397 | Congested: `ioError` set and nothing read; otherwise the input is used up unless torn down or congested |
| Engine.StreamEngine.Consume | src/main/java/zmq/StreamEngine.java:353-397 | The input is used up unless the engine is torn down or congested |
| Engine.StreamEngine.Refill | src/main/java/zmq/StreamEngine.java:354-368 | Reads into the decoder's buffer; tears down exactly when the read returns -1 |
| Engine.StreamEngine.Receive | src/main/java/zmq/StreamEngine.java:359-361 | Reads at most `getBuffer`'s room from the socket |
| Engine.StreamEngine.Handshake | src/main/java/zmq/StreamEngine.java:534-638 | The greeting read is `ReadGreeting`; codecs are chosen exactly when it is decided; a 0-byte read keeps handshaking; -1 tears down; the tail goes out at most once |
| Engine.StreamEngine.Conclude | src/main/java/zmq/StreamEngine.java:584-637 | Tear down on -1, wait on 0, choose the codecs on 1 |
| Engine.StreamEngine.AwaitGreeting | src/main/java/zmq/StreamEngine.java:539-582 | The read loop gives exactly `ReadGreeting` |
| Engine.StreamEngine.GreetingRound | src/main/java/zmq/StreamEngine.java:540-581 | One turn of the read loop makes progress or stops with the status of `ReadGreeting` |
| Engine.StreamEngine.SendTail | src/main/java/zmq/StreamEngine.java:571-581 | Revision 1 and the socket type are appended once, and `outsize` grows by 2 |
| Engine.StreamEngine.ReceiveGreeting | src/main/java/zmq/StreamEngine.java:540 | The bytes read are appended to the greeting |
| Engine.StreamEngine.Choose | src/main/java/zmq/StreamEngine.java:587-637 | Codecs of `PeerRevision`; a versionless peer's bytes become decoder input and PUB/XPUB owes it a subscription; done unless the header size does not match |
| Engine.Subscribes | src/main/java/zmq/StreamEngine.java:622 | PUB and XPUB owe a versionless peer a subscription; `Choose` states that `subscriptionRequired` is set from it |
| Engine.StreamEngine.ReadMsg | src/main/java/zmq/StreamEngine.java:690-712 | `readMsg` is `ReadMsgStep` |
| Engine.StreamEngine.WriteMsg | src/main/java/zmq/StreamEngine.java:719-757 | `writeMsg` is `WriteMsgStep` |
| Engine.StreamEngine.DecodeInput | src/main/java/zmq/StreamEngine.java:376-378 | One `decode` follows `Run`, and `insize` drops by the bytes it used |
| Engine.StreamEngine.Turn | src/main/java/zmq/StreamEngine.java:374-384 | One turn of the loop consumes input and follows `Pump` |
| Engine.StreamEngine.Drain | src/main/java/zmq/StreamEngine.java:374-384 | The loop gives exactly `Pump` |
| Engine.StreamEngine.DecodeLoop | src/main/java/zmq/StreamEngine.java:371-395 | The loop gives `Pump`; tears down exactly on -1; congested exactly on EAGAIN |
| Routing.NextPeerId | src/main/java/zmq/Router.java:332 | `next_peer_id++` stays a Java int |
| Routing.GeneratedId | src/main/java/zmq/Router.java:328-335 | Five bytes: 0, then the counter as a big-endian int |
| Routing.PeerIdAfter | src/main/java/zmq/Router.java:61-63 | The counter stays a Java int |
| Routing.PeerIdWraps | src/main/java/zmq/Router.java:61-63 | The counter wraps from the largest int to the smallest |
| Routing.PeerIdAfterIsSum | src/main/java/zmq/Router.java:61-63 | After k increments the counter is start + k, wrapped to 32 bits |
| Routing.GeneratedIdsDistinct | src/main/java/zmq/Router.java:61-63 | A generated identity does not come round again within 2^32 - 1 further identities |
| Routing.Identify | src/main/java/zmq/Router.java:320-352 | Nothing to read: no change; otherwise the frame is consumed; an empty frame gets a generated identity and advances the counter; a taken name is refused with the table unchanged; success adds exactly one active entry |
| Routing.Tagged | src/main/java/zmq/Router.java:109 | `fq.attach` queues the pipe's messages in order |
| Routing.Without | src/main/java/zmq/Router.java:129 | `fq.terminated` leaves no entry of the pipe and keeps every other entry |
| Routing.WithoutAppend | src/main/java/zmq/Router.java:129 | Dropping a pipe distributes over concatenation, so the kept entries stay in order and with their multiplicity |
| Routing.WithoutSingle | src/main/java/zmq/Router.java:129 | A single entry is dropped exactly when it is the pipe's |
| Routing.WithoutOthers | src/main/java/zmq/Router.java:129 | A fair queue without entries of the pipe is left as it is |
| Routing.SendStep | src/main/java/zmq/Router.java:162-217 | Fails only for an unknown peer under `report_unroutable`; a first part without MORE is ignored; an unknown peer is refused or dropped; a known peer with room becomes the target, a full one has its entry marked inactive and no target is held; a write the target refuses releases it; the last part releases the target |
| Routing.SendKeepsPeers | src/main/java/zmq/Router.java:162-217 | `xsend` changes no inbound queue, identity or entry's pipe |
| Routing.SendAll | src/main/java/zmq/Router.java:162-217 | A run of `xsend` calls gives one answer per part and keeps the pipe state well formed |
| Routing.SendAllAppend | src/main/java/zmq/Router.java:162-217 | Sending two runs of parts is sending them one after the other |
| Routing.HeldStep | src/main/java/zmq/Router.java:198-210 | A part to a held target is written; the last part flushes and releases it |
| Routing.SendHeld | src/main/java/zmq/Router.java:198-210 | Parts with MORE wait in the target pipe |
| Routing.SendBody | src/main/java/zmq/Router.java:198-210 | A message's parts are all accepted and flushed with the last one |
| Routing.RouteDelivers | src/main/java/zmq/Router.java:165-210 | A message to a known peer with room reaches it in order, and the router is back between messages |
| Routing.DropsRest | src/main/java/zmq/Router.java:199-212 | After an unknown peer is accepted silently, the rest of the message is dropped |
| Routing.FullPeerDropsMessage | src/main/java/zmq/Router.java:183-210 | A whole message to a known peer with a full pipe is accepted and reaches no pipe; only the entry becomes inactive |
| Routing.RollbackOut | src/main/java/zmq/Router.java:268-276 | `rollback` releases any target and changes nothing without one |
| Routing.RollbackUndoes | src/main/java/zmq/Router.java:268-276 | A message abandoned before its last part leaves the pipe as it was once rolled back |
| Routing.RecvStep | src/main/java/zmq/Router.java:220-266 | None exactly when nothing is prefetched or queued; in a message the part passes through; at its start the sender's identity comes first, flagged MORE, and the part is prefetched |
| Routing.HasInStep | src/main/java/zmq/Router.java:278-309 | True exactly when in a message, prefetched, or something is queued |
| Routing.RecvAll | src/main/java/zmq/Router.java:220-266 | n `xrecv` calls give n answers and keep the inbound state well formed |
| Routing.RecvTail | src/main/java/zmq/Router.java:247-249 | In the middle of a message, the parts come out as they are |
| Routing.RecvEnvelope | src/main/java/zmq/Router.java:247-263 | A whole message comes out as its sender's identity flagged MORE, then its parts |
| Routing.IdFrame | src/main/java/zmq/Router.java:258-262 | The identity part handed out before a message, flagged MORE (also `Router.java:300-303`); `RecvEnvelope` states where it appears |
| Routing.PrefetchTransparent | src/main/java/zmq/Router.java:286-306 | `xhas_in` before two `xrecv` calls changes nothing they return |
| Routing.IdentifyKeepsTables | src/main/java/zmq/Router.java:103-112 | Identification followed by attach or parking keeps the tables consistent |
| Routing.Admit | src/main/java/zmq/Router.java:103-112 | The pipe ends up in the fair queue or anonymous, never both, with the table and counter of `identify_peer` |
| Routing.TerminateKeepsTables | src/main/java/zmq/Router.java:124-133 | Terminating an identified pipe keeps the tables consistent and leaves no entry pointing at it |
| Routing.TerminateAsWritten | src/main/java/zmq/Router.java:124-133 | `xterminated` with Java assertions disabled: the pipe leaves the fair queue but its entry stays in `outpipes` |
| Routing.StaleRouteAsWritten | src/main/java/zmq/Router.java:128 | With assertions disabled the tables are left inconsistent and the next message to the peer's identity selects the terminated pipe |
| Routing.Router.constructor | src/main/java/zmq/Router.java:70-99 | No peers, no target, nothing prefetched; the counter is the seed |
| Routing.Router.OutpipeUnique | src/main/java/zmq/Router.java:149-160 | Each pipe has at most one entry in `outpipes` |
| Routing.Router.IdentifyPeer | src/main/java/zmq/Router.java:320-352 | `identify_peer` is `Identify` |
| Routing.Router.Attach | src/main/java/zmq/Router.java:109 | The pipe's waiting messages join the fair queue |
| Routing.Router.AttachPipe | src/main/java/zmq/Router.java:103-112 | `xattach_pipe` is `Admit` and keeps the router consistent |
| Routing.Router.Admission | src/main/java/zmq/Router.java:140-146 | Identify, then attach or park, as `Admit` |
| Routing.Router.SetSockOpt | src/main/java/zmq/Router.java:114-121 | Only ZMQ_ROUTER_BEHAVIOR changes `report_unroutable`, to `optval == 1` |
| Routing.Router.Terminated | src/main/java/zmq/Router.java:124-133 | An anonymous pipe is forgotten; an identified one loses its entry, its fair-queue entries and its role as target |
| Routing.Router.ReadActivated | src/main/java/zmq/Router.java:135-147 | An attached pipe's messages join the fair queue; an anonymous pipe is admitted again |
| Routing.Router.Activated | src/main/java/zmq/Router.java:138-139 | `fq.activated` queues the pipe's new messages |
| Routing.Router.WriteActivated | src/main/java/zmq/Router.java:149-160 | Exactly the pipe's inactive entry becomes active |
| Routing.Router.Send | src/main/java/zmq/Router.java:162-217 | `xsend` is `SendStep` and keeps the router consistent |
| Routing.Router.Recv | src/main/java/zmq/Router.java:220-266 | `xrecv` is `RecvStep` |
| Routing.Router.Rollback | src/main/java/zmq/Router.java:268-276 | `rollback` is `RollbackOut` |
| Routing.Router.HasIn | src/main/java/zmq/Router.java:278-309 | `xhas_in` is `HasInStep` |
| Routing.Router.HasOut | src/main/java/zmq/Router.java:311-318 | A ROUTER is always ready for writing |

## Left out

- Socket and poller I/O are not modelled. This covers `read`/`write` on the channel, `setPollIn`/`setPollOut`/`resetPoll*`, `unplug`, `destroy` and `terminate`. Reads are a queue of chunks plus a closed flag; `error()` only marks the engine as torn down and unplugged.
- `outEvent` and `activateIn` are left out. Their source is not valid Java (C++ lines in the batching loop; undefined `ioEnabled`, `processBuffer` and `stalled`), so no behaviour can be stated for them.
- `newDecoder`/`newEncoder` by reflection and the `RAW_ENCODER` probe are replaced by a revision and the boolean option `custom`.
- `EncoderBase`, `V1Encoder`, `FQ`, `Pipe`, `Msg`, `Blob`, `MsgAllocator`, `V2Protocol`, `ZMQ`, `ZError` and `Utils` are not part of this model. Pipes and the fair queue are abstracted as described above. `allocate` returns a zeroed body. `Utils.generate_random()` is the constructor parameter `seed`.
- Constants whose defining files are not part of this model use the values the ZeroMQ API defines: ZMQ_ROUTER_BEHAVIOR = 33, ZMQ_PUB = 1, ZMQ_XPUB = 9, EAGAIN = 35, MORE_FLAG = 1, LARGE_FLAG = 2.
- `encodeLeft` stands for `tmp.remaining()` after `encoder.encode(tmp)` in `handshake`; `EncoderBase.encode` is not part of this model.
- The engine calls a three-argument `decode(inbuf, insize, processed)` that `DecoderBase` does not have. `Decoding.Decoder.Decode` returns the value returned, the bytes used and the code of the `next()` call that stopped it, and the engine uses the last two.
- The `nextStep` overloads and `state()` have no members of their own: each handler method sets the target, limit and state they would set.
- Engine.StreamEngine.Plug: states the greeting part only; what the `inEvent` call at its end does is stated by `InEvent`, which needs an `encodeLeft` that `Plug` passes on.
- Engine.StreamEngine.Consume: states that the input is used up unless the engine is torn down or congested, not which messages reached the session; that is stated by `DecodeLoop` against `Pump`.
- Engine.StreamEngine.InEvent: inherits the same weaker statement about delivered messages from `Consume`.
- Engine.ReadMsgStep: its own contract only says the control messages are out after one call; what it returns is stated by `PullsOnly` and `IdentityFirstAndOnce`.
- Engine.WriteMsgStep: its own contract only says the flags are never re-armed. `PassThrough` and `FirstMessagesIn` state what it delivers to a session that takes every push, and `WriteMsgControl` states the first call for any session answers. Later calls into a session that pushes back are stated only as single `SessionPush` steps.
- Routing.RecvStep: its contract does not state the two prefetched branches one by one; `PrefetchTransparent` states their combined effect.
- Routing.Router.Terminated: assumes Java assertions are enabled (`-ea`), because the removal from `outpipes` sits inside an `assert` (`Router.java:128`). Its precondition is that assertion: an identified pipe has its entry. Under the JVM default (`-da`) the entry stays and a later `xsend` to that identity selects the terminated pipe; `TerminateAsWritten` and `StaleRouteAsWritten` model that mode.
- Routing.Router.WriteActivated: picks the entry by choice rather than by iterating the map. Entries are unique per pipe (`OutpipeUnique`), so the order does not matter. Its precondition is the source's assertions: such an entry exists and is inactive.
- The assertion that received messages carry no IDENTITY flag (`Router.java:244`, `Router.java:298`) is not modelled; messages are passed on as they are.
- Decoding.V2Next: the ZMTP/2.0 machine reads the 8-byte length unsigned (the corrected `V2Length8`); a length of 2^63 or more is refused with EMSGSIZE where the source passes `(int) msgSize` to the allocator. The two agree on every length below 2^63 (`V2Length8Agrees`).
- Decoding.Step: inherits the unsigned 8-byte length from `V2Next`.
- Decoding.Machine: inherits the unsigned 8-byte length from `V2Next`.
- Decoding.Run: inherits the unsigned 8-byte length from `V2Next`.
- Engine.Pump: inherits the unsigned 8-byte length from `V2Next`.
- Decoding.Decoder.V2EightByteSizeReady: reads the length unsigned (the corrected `V2Length8`); the behaviour as written is `V2Length8AsWritten`.
- Encoding.V2Encoder.Next: uses the corrected dispatch; the dispatch as written is `NextAsWritten`, modelled with Java assertions disabled. With `-ea` every call of `next()` as written ends in the `assert false` of its `default` case and throws.
- `options.identitySize` is taken to be the length of `options.identity`; `Options` is not part of this model.

## Findings

| source | as written | input that shows it | evidently intended | confidence | as-written member | corrected member |
|---|---|---|---|---|---|---|
| src/main/java/zmq/V2Decoder.java:97-114 | The 8-byte length is read with the signed `getLong`, so a length with the top bit set is negative, passes both size checks, and `(int) msgSize` is handed to the allocator | bytes `80 00 00 00 00 00 00 05` ask for 5 bytes; eight `FF` bytes ask for -1 | The length is a 64-bit unsigned integer (the source comment says so) and anything above `Integer.MAX_VALUE` is refused with EMSGSIZE | not executed | Handlers.V2Length8AsWritten | Handlers.V2Length8 |
| src/main/java/zmq/V2Encoder.java:44-55 | `next()` has no `break`. With Java assertions disabled, SIZE_READY runs `sizeReady` and falls into `messageReady`, so the body is overwritten by a header before it is written. With `-ea` every call falls into `assert false` and throws | the one-byte message `[7]` is emitted as `[0,1,0,1]` instead of `[0,1,7]` | One handler per call: header from MESSAGE_READY, body from SIZE_READY | not executed | Encoding.AsWrittenLosesBody | Encoding.EncoderCycle |
| src/main/java/zmq/Router.java:124-133 | The removal of the peer's `outpipes` entry is the expression inside an `assert`, so with Java assertions disabled (the JVM default) it never runs | an identified peer with room is terminated; the next message addressed to its identity selects the terminated pipe | The entry is removed whatever the assertion mode, and no entry names a terminated pipe | not executed | Routing.StaleRouteAsWritten | Routing.TerminateKeepsTables |
