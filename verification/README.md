# NemoHeadUnit-Wireless: verification model

A Dafny model of the core of the wireless Android Auto head unit, and proofs about it. `dafny verify dfyconfig.toml`
checks all of it.

**The wire stack.** `FrameCodec` splits messages into frames, `FrameRelay` writes and reads them over a socket that
takes and gives bytes in any pieces, `FrameAssembler` puts the messages of all channels together again, `TcpServer`
strips the message id and publishes. `EndToEnd` composes them: what a peer sends is what comes out, for every list of
messages. `AaCryptor` is the decryption loop. TLS itself is a pair of functions from record number and bytes to bytes.

**The session start.** `Handshake` (the control channel), `ChannelManager` (one session's bookkeeping) and
`ChannelModule` (a module's readiness gate) are the three state machines; `HandshakeRuns` and `ManagerRuns` tell state
and outputs of the first two from any sequence of events alone. `SessionStart` runs them against each other,
with every bus message delayed and reordered at will, and proves the guarantee the control channel documents: the phone
gets its service discovery response only when every channel module is up. `SessionOutcome` tells from the actions of a
run how it ended, what was started and what was opened. `SessionTimeouts` says exactly when a run
without timeouts can answer the phone at all, and exactly for which sets of modules the guarantee still holds when
waits time out.

**Hand-written protobuf code.** `Varint` and `MediaParser` read media bodies, and `MediaBodies` says what any body yields;
`SchemaCompiler` turns descriptor graphs, cyclic ones included, into configuration schemas, with the nodes that
`SchemaLayout` describes, and `ConfigSchema` sends those over the bus as plain dictionaries, of the form in `BusForm`.

**Three more state machines.** `BusClient` counts losses on the message bus, `RfcommHandshake` shares one socket and
one handshake between threads, `Boot` starts the modules level by level.

Code that changes things step by step is a class or a method with loops, proved equal to a function; the lemmas are
about that function. Code made of expressions is functions. Strings, bytes and bus payloads are values; a byte is an
integer below 256. A thrown exception is a result value. What the operating system, the network and other processes do
is a parameter: scripts of socket events, lists of polls, sequences of actions.

## Where the code and its comments differ

The model follows the code.

- The comments of `handshake.py` number the control messages differently from the protobuf enumeration the code uses.
- `handshake.py:42-49` promises that all modules are up. `channel_manager/main.py:438-445` keeps only the outcome of the
  last level's wait, so a level that timed out can be forgotten: `SessionTimeouts.GuaranteeExact`.
- `AACryptor.decrypt` promises the plaintext and returns none of it: `AaCryptor.DecryptKeepsNothing`. What that means
  for delivery is `EndToEnd.DeliveryAsWritten`; what a working pair would give is `EndToEnd.SealedDelivery`.
- The warning about a size mismatch in `_on_raw_frame` passes arguments that its text has no place for. The logger
  formats with them and raises, which ends the receive loop. The model has this outcome as `Raised`.
- `build_media_with_timestamp` is called the counterpart of the parser, which tries protobuf fields first and so can
  misread what was built: `MediaParser.ParseUndoesBuild` says exactly when, `MediaParser.BuiltBodyMisread` is a case.
- The documentation of `schema_from_proto_message` distinguishes required from optional messages. The code makes every
  single nested message optional.
- A ping in any state makes the control channel active, and a request that was waiting stays unanswered:
  `Handshake.EarlyPingLosesResponse`.
- A publication that raises inside the handshake thread of `rfcomm_handshake` leaves its running flag set for good:
  `RfcommHandshake.CrashIsFinal`.
- Replies of unknown modules count when the boot decides that enough modules replied: `Boot.ReplyHonouredExactly`.

## Model

| member | source | states |
|---|---|---|
| Bytes.BigEndianRoundTrip | v2/modules/tcp_server/frame_codec.py:168-171 | a number packed into the fixed-width big-endian fields of a header is read back unchanged |
| Bytes.FromBigEndianRoundTrip | v2/modules/tcp_server/frame_relay.py:151-159 | every string of header bytes is the packed form of the number read from it |
| Bytes.LittleEndianRoundTrip | v2/shared/proto_utils.py:300 | the fixed64 field of a media body is read as the number that was encoded |
| Bytes.FromLittleEndianRoundTrip | v2/shared/proto_utils.py:300 | every eight bytes are the fixed64 form of the number read from them |
| Bytes.BigEndianWeights | v2/modules/tcp_server/frame_codec.py:165-173 | in fields of two, four and eight bytes the first byte weighs most, in figures |
| Bytes.LittleEndianWeights | v2/shared/proto_utils.py:300 | in a fixed64 field the first byte weighs least, in figures |
| FrameCodec.FrameBytes | v2/modules/tcp_server/frame_codec.py:165-173 | a frame takes four header bytes, four more for the total of a FIRST frame, and its payload |
| FrameCodec.BuildFrame | v2/modules/tcp_server/frame_codec.py:165-173 | packing succeeds exactly when channel, length and the total of a FIRST frame fit their fields, and then gives a frame that can stand on the wire |
| FrameCodec.WireAppend | v2/modules/tcp_server/main.py:243-245 | frames sent in two batches are the bytes of one batch followed by those of the other |
| FrameCodec.Fragments | v2/modules/tcp_server/frame_codec.py:157-199 | a payload of n bytes gives the least number of frames that hold 4096 bytes each, one if it is empty |
| FrameCodec.FragmentsPrefix | v2/modules/tcp_server/frame_codec.py:181-193 | the first k fragments together hold the first min(4096 k, n) bytes |
| FrameCodec.FragmentsCarryPayload | v2/modules/tcp_server/frame_codec.py:176-199 | a long payload gives ceil(n/4096) non-empty frames of at most 4096 bytes: FIRST declaring n, MIDDLE ones, LAST, all with the same bits, joining to the payload |
| FrameCodec.FragmentsValid | v2/modules/tcp_server/frame_codec.py:165-199 | every fragment fits the wire format if the total fits four bytes |
| FrameCodec.FragmentAt | v2/modules/tcp_server/frame_codec.py:190-197 | the loop's next frame is MIDDLE with a full chunk while more than a chunk is left, and else LAST with the rest |
| FrameCodec.BuildMultiFrame | v2/modules/tcp_server/frame_codec.py:176-199 | the loop yields exactly the fragments, or FIRST and an empty LAST for a payload that fits one frame, and fails exactly for a channel or a total out of range |
| FrameCodec.Message.Plain | v2/modules/tcp_server/frame_codec.py:146-147 | the plain payload is the body and two bytes for the id |
| FrameCodec.Bits | v2/modules/tcp_server/frame_codec.py:143-158 | the encrypted bit is set exactly when the message really goes out encrypted, the downgrade without a cryptor included |
| FrameCodec.Encode | v2/modules/tcp_server/frame_codec.py:119-162 | encode succeeds exactly when channel, id and long totals fit their fields; it then yields the frames of the possibly encrypted payload, all fit for the wire |
| FrameCodec.MessageFollowsPolicy | v2/modules/tcp_server/frame_codec.py:99-162 | every frame of a message names its channel, carries the control bit just for channel open responses off channel 0, and the encrypted bit just if its payloads join to the sealed message; channel 0 keeps its handshake messages plain |
| FrameCodec.MessageIsMarked | v2/modules/tcp_server/frame_codec.py:157-199 | of the frames of any message, bit 0 marks exactly the first and bit 1 exactly the last; the first of several declares the size and all but the last hold 4096 bytes |
| FrameCodec.FrameLayout | v2/modules/tcp_server/frame_codec.py:165-173 | a frame is its channel, its flags, two length bytes, four total bytes exactly for type 1, and the payload, each byte by its weight |
| FrameCodec.PlainLayout | v2/modules/tcp_server/frame_codec.py:146-147 | the plain payload is the high byte of the id, its low byte and the body |
| FrameAssembler.AsBulk | v2/modules/tcp_server/frame_codec.py:289-290 | only the frame type changes: it becomes BULK, all other bits stay |
| FrameAssembler.Assembler.Reset | v2/modules/tcp_server/frame_codec.py:233-238 | forgets one channel, or all of them, and nothing else |
| FrameAssembler.Assembler.Feed | v2/modules/tcp_server/frame_codec.py:240-294 | the chunk lists, joined, and the returned message follow the per-channel machine; other channels are untouched |
| FrameAssembler.ChannelsAreIndependent | v2/modules/tcp_server/frame_codec.py:240-294 | for every frame sequence, the messages on a channel are those of a single-channel assembler fed that channel's frames |
| FrameAssembler.CollectTail | v2/modules/tcp_server/frame_codec.py:274-294 | a started message, any MIDDLE frames and LAST give the joined payload under the FIRST frame's bits and total, and leave nothing pending |
| FrameAssembler.Resynchronises | v2/modules/tcp_server/frame_codec.py:260-291 | from any leftover of earlier fragments, a complete transmission yields exactly its message |
| FrameAssembler.PendingExactly | v2/modules/tcp_server/frame_codec.py:260-291 | after any frames of a channel a message is pending exactly if a FIRST was followed by no LAST, and then holds that frame's bits, total and all payloads since |
| FrameAssembler.DeliversExactly | v2/modules/tcp_server/frame_codec.py:260-294 | any frame of any sequence delivers exactly: BULK itself, LAST the message pending, and nothing otherwise |
| FrameAssembler.StrayFramesVanish | v2/modules/tcp_server/frame_codec.py:269-276 | MIDDLE and LAST frames without a FIRST deliver nothing and leave nothing |
| FrameAssembler.SingleDelivery | v2/modules/tcp_server/frame_codec.py:240-294 | complete transmissions one after another on a channel yield exactly their messages in order |
| FrameAssembler.Demultiplexing | v2/modules/tcp_server/frame_codec.py:240-294 | for every interleaving of any channels, each channel delivers exactly its own messages, whole and in order |
| FrameAssembler.ContiguousDelivery | v2/modules/tcp_server/frame_codec.py:240-294 | transmissions that are not interleaved come out in the order they were sent, across channels |
| FrameAssembler.EncodeCarriesMessage | v2/modules/tcp_server/frame_codec.py:157-199 | what encode builds is a complete transmission of its wire payload with its own bits and total |
| AaCryptor.Decrypt | v2/modules/tcp_server/aa_cryptor.py:227-242 | the read loop ends for every behaviour of the TLS object with the modelled result or exception |
| AaCryptor.DecryptKeepsNothing | v2/modules/tcp_server/aa_cryptor.py:233-242 | decrypt never returns a byte of plaintext; it is right exactly for records that hold none |
| AaCryptor.DecryptRaisesExactly | v2/modules/tcp_server/aa_cryptor.py:233-242 | decrypt raises if and only if the first read that brings no data is a failure other than a wish for more |
| AaCryptor.DecryptLosesByte | v2/modules/tcp_server/aa_cryptor.py:233-242 | a record of one byte that comes back empty |
| TcpServer.Pipeline.OnRawFrame | v2/modules/tcp_server/main.py:420-500 | one frame moves assembler, record count, publications and the raised flag as the connection's step function says |
| TcpServer.HandleAllDispatches | v2/modules/tcp_server/main.py:420-500 | over any frames, the publications are those of the assembled messages in order, up to the first that raises |
| TcpServer.UnopenedOutcome | v2/modules/tcp_server/main.py:432-480 | a message that is plain, or arrives without an active cryptor, is judged by its own bytes: dropped below two, raising on a size mismatch, else published with its id and its encrypted flag |
| TcpServer.OpenedOutcome | v2/modules/tcp_server/main.py:443-480 | an encrypted message under an active cryptor is judged in the same way by what decrypt gives, and dropped if that fails |
| TcpServer.UnopenedPublished | v2/modules/tcp_server/main.py:443-480 | without a cryptor any list of messages of proper length is published from its bytes as received, the encrypted ones too, in order |
| FrameRelay.ParseOne | v2/modules/tcp_server/frame_relay.py:131-171 | reading a frame consumes at least one byte of the stream |
| FrameRelay.ParseOneReadsFrame | v2/modules/tcp_server/frame_relay.py:131-171 | the bytes of a frame, whatever follows, are read as that frame and the rest is left |
| FrameRelay.ParseOneInverts | v2/modules/tcp_server/frame_relay.py:131-171 | every frame read is one that the consumed bytes encode |
| FrameRelay.ParseUndoesWire | v2/modules/tcp_server/frame_relay.py:87-171 | parsing undoes framing for every list of frames, whatever follows |
| FrameRelay.ParseWholeWire | v2/modules/tcp_server/frame_relay.py:87-171 | the frames read from a sent list are that list |
| FrameRelay.WireUndoesParse | v2/modules/tcp_server/frame_relay.py:87-171 | every byte stream is the wire form of the frames read from it and a part of one more frame |
| FrameRelay.CutAnywhere | v2/modules/tcp_server/frame_relay.py:131-186 | a stream cut at any byte yields exactly the frames that lie wholly before the cut |
| FrameRelay.Relay.Recv | v2/modules/tcp_server/frame_relay.py:177-184 | one recv takes an arbitrary piece off the front of the stream, or fails |
| FrameRelay.Relay.RecvExact | v2/modules/tcp_server/frame_relay.py:173-186 | returns the next n bytes for every chunking, and without faults is refused exactly when fewer are left |
| FrameRelay.Relay.ReadFrame | v2/modules/tcp_server/frame_relay.py:131-171 | the frame read depends on the bytes alone, never on how they arrive |
| FrameRelay.Relay.Start | v2/modules/tcp_server/frame_relay.py:87-103 | hands on a prefix of the frames in the stream, in order; without faults all of them; reports the close once |
| FrameRelay.Relay.SendRaw | v2/modules/tcp_server/frame_relay.py:113-125 | for every sequence of partial sends a prefix of the data goes out, and success means all of it, once |
| FrameRelay.Relay.OnFrameSend | v2/modules/tcp_server/main.py:229-251 | writes the message's frames back to back and whole, a prefix of them if the socket fails, nothing if encode fails |
| FrameRelay.HandleAllStops | v2/modules/tcp_server/frame_relay.py:92-103 | frames after the one whose callback raised make no difference |
| EndToEnd.TransmissionsAreSent | v2/modules/tcp_server/frame_codec.py:119-199 | the frames sent for a list of messages are complete transmissions, all valid on the wire |
| EndToEnd.WireToFates | v2/modules/tcp_server/frame_relay.py:87-186 | sending, reading in any pieces, reassembling and dispatching publishes exactly what each message alone would, in order |
| EndToEnd.SendAll | v2/modules/tcp_server/main.py:229-251 | sent one after another through partial writes, the messages leave as the bytes of their frames and nothing else |
| EndToEnd.Transmit | v2/modules/tcp_server/frame_relay.py:87-186 | one relay object sends, another receives: for all partial sends and recv chunks, what is published is each message's own fate, in order |
| EndToEnd.PlainSplits | v2/modules/tcp_server/main.py:473-474 | stripping the id from a plain payload gives the id and the body that were packed |
| EndToEnd.PlainFate | v2/modules/tcp_server/main.py:432-480 | a message that goes out plain is published with its own channel, id and body |
| EndToEnd.PlainDelivery | v2/modules/tcp_server/frame_codec.py:119-294 | every list of messages that go out plain arrives whole and in order, with ids stripped and nothing else changed |
| EndToEnd.SealedFate | v2/modules/tcp_server/main.py:443-480 | with inverse TLS objects a sealed message arrives, unless it is split and changes length, which ends the connection |
| EndToEnd.SealedDelivery | v2/modules/tcp_server/main.py:420-480 | with inverse TLS objects the list arrives whole if and only if no sealed message that is split changes its length |
| EndToEnd.SplitRecordRaises | v2/modules/tcp_server/main.py:468-472 | a message of 5000 bytes, under TLS objects that add a byte to each record, that ends the connection |
| EndToEnd.SealedIsDropped | v2/modules/tcp_server/main.py:443-467 | with decrypt as written every encrypted message is dropped |
| EndToEnd.DeliveryAsWritten | v2/modules/tcp_server/main.py:420-480 | with decrypt as written exactly the plain messages arrive; the list arrives whole if and only if none is sealed |
| EndToEnd.RawFates | v2/modules/tcp_server/main.py:443-480 | with no cryptor at the receiver nothing raises, and every message that has two bytes on the wire is published as it stands there, sealed or not |
| Handshake.ControlChannelHandshake.SendVersionRequest | v2/modules/oaa_control_channel/handshake.py:187-194 | sends the version in plain and moves to VERSION_SENT |
| Handshake.ControlChannelHandshake.OnMessage | v2/modules/oaa_control_channel/handshake.py:196-227 | state and outputs follow the step function for every message id, unknown ones included |
| Handshake.ControlChannelHandshake.OnTlsHandshakeBlob | v2/modules/oaa_control_channel/handshake.py:229-233 | TLS bytes are forwarded in plain and the state stays |
| Handshake.ControlChannelHandshake.OnTlsComplete | v2/modules/oaa_control_channel/handshake.py:235-241 | the end of TLS is announced in plain and the state becomes AUTH_OK |
| Handshake.ControlChannelHandshake.OnChannelsReady | v2/modules/oaa_control_channel/handshake.py:243-257 | the report is answered while waiting and ignored in every other state |
| Handshake.WaitingCharacterised | v2/modules/oaa_control_channel/handshake.py:187-393 | in every run the handshake waits exactly when a discovery request was followed by nothing that ends the wait |
| Handshake.FlagOfLatestRequest | v2/modules/oaa_control_channel/handshake.py:296 | the remembered flag is that of the latest discovery request |
| Handshake.ResponsesAnswerRequests | v2/modules/oaa_control_channel/handshake.py:243-257 | a discovery response goes out exactly when the modules are reported ready during a wait, under the latest request's flag |
| Handshake.RequestBetweenResponses | v2/modules/oaa_control_channel/handshake.py:243-308 | between two discovery responses there is a discovery request |
| Handshake.RepliesPairUp | v2/modules/oaa_control_channel/handshake.py:310-393 | each request but discovery gets its one matching reply at once under its own flag, and no other message gets any |
| Handshake.OpenChannelsAsRequested | v2/modules/oaa_control_channel/handshake.py:310-319 | after every run the open channels are exactly those the phone asked to open |
| Handshake.CallbackMarksEntry | v2/modules/oaa_control_channel/handshake.py:321-360 | the active callback fires exactly on entries into ACTIVE |
| Handshake.NoTriggerNoActivation | v2/modules/oaa_control_channel/handshake.py:321-360 | without ping and audio focus request the session never becomes active |
| Handshake.ActiveExactlyOnce | v2/modules/oaa_control_channel/handshake.py:321-360 | for a phone keeping to the documented order the callback fires once, at whichever of ping and audio focus comes first |
| Handshake.EarlyPingLosesResponse | v2/modules/oaa_control_channel/handshake.py:330-334 | a run in which a ping during the wait makes the session active and the request stays unanswered |
| HandshakeRuns.PhaseExactly | v2/modules/oaa_control_channel/handshake.py:187-393 | after any events the phase is the one that the latest event with an effect on it entered, told from the events and their ids in figures |
| HandshakeRuns.OutputsExactly | v2/modules/oaa_control_channel/handshake.py:187-393 | an event of a run emits an output if and only if it calls for it: each send with its id, body and flag, TLS start, TLS input, channel opening and both callbacks |
| HandshakeRuns.OutputsInOrder | v2/modules/oaa_control_channel/handshake.py:321-393 | no event emits an output twice, and a reply goes out before the callback beside it |
| HandshakeRuns.TlsAndShutdownExactly | v2/modules/oaa_control_channel/handshake.py:268-393 | over every run TLS is started exactly by messages of id 2 and the shutdown callback fires exactly on messages of id 15 |
| HandshakeRuns.TlsBytesExactly | v2/modules/oaa_control_channel/handshake.py:229-286 | over every run the TLS object gets exactly the joined bodies of the messages of id 3, and the phone is sent exactly the joined bytes of the TLS object |
| ChannelModule.BaseChannelModule.TryPublishReady | v2/modules/channel_modules/base_channel_module.py:216-232 | readiness is announced at most once, and only through the open gate |
| ChannelModule.BaseChannelModule.OnConfigLoaded | v2/modules/channel_modules/base_channel_module.py:183-196 | the configuration opens its part of the gate, even when empty |
| ChannelModule.BaseChannelModule.OnModuleStart | v2/modules/channel_modules/base_channel_module.py:251-261 | starts of other levels are ignored; that of its own opens its part of the gate |
| ChannelModule.GateRemembers | v2/modules/channel_modules/base_channel_module.py:183-261 | the flags say whether the module was ever started at its own level and ever configured |
| ChannelModule.ReadyExactlyWhenQualified | v2/modules/channel_modules/base_channel_module.py:216-261 | in every run a module has announced readiness if and only if at some event it was started, configured if it has a schema, knew its channel and had its resource |
| ChannelManager.ChannelManagerSession.StartChildren | v2/modules/channel_manager/main.py:159-172 | the session expects the launched modules; with none it is ready at once |
| ChannelManager.ChannelManagerSession.OnModuleReadyToStart | v2/modules/channel_manager/main.py:183-197 | unexpected names are ignored; the event is set when the last expected module announces itself |
| ChannelManager.ChannelManagerSession.FindPriority | v2/modules/channel_manager/main.py:238-242 | the priority found is that of the first announcement of the name, if there is one |
| ChannelManager.ChannelManagerSession.OnModuleReady | v2/modules/channel_manager/main.py:228-258 | unexpected names are ignored; the event is set when all names announced at the reporting module's priority are ready |
| ChannelManager.ChannelManagerSession.WaitAllReadyToStart | v2/modules/channel_manager/main.py:199-226 | on success the list holds exactly the announced priorities, each once; a timeout leaves it as it was |
| ChannelManager.ChannelManagerSession.WaitAllReady | v2/modules/channel_manager/main.py:272-299 | on success every active channel is opened, in the order of readiness; a timeout opens none |
| ManagerRuns.PriorityIsFirst | v2/modules/channel_manager/main.py:238-242 | the priority of a module is that of its first announcement, and missing exactly if it was never announced |
| ManagerRuns.CountsExactly | v2/modules/channel_manager/main.py:183-258 | after any messages, unexpected and repeated ones included, a session has counted exactly the announcements and reports of launched modules in their order, and its first event is set exactly if all have announced themselves |
| ManagerRuns.FlagExactly | v2/modules/channel_manager/main.py:228-258 | after any messages the readiness event is set exactly if nothing was launched or some report found all modules ready that were announced at its module's priority |
| SessionStart.OnlyReadyAnswers | v2/modules/oaa_control_channel/handshake.py:243-257 | no event but the report of ready channels, in the waiting state, makes the control channel answer discovery, and only a request opens a session |
| SessionStart.PeersAreLevel | v2/modules/channel_manager/main.py:238-252 | once all modules are announced, a readiness report waits for exactly the modules of its level |
| SessionStart.GateKeepsInv | v2/modules/channel_modules/base_channel_module.py:183-261 | no event of a module breaks the invariant: whoever reports was started at its level, and its report is in flight or counted, never both |
| SessionStart.ReportInOrder | v2/modules/channel_manager/main.py:228-258 | while nothing timed out, a report belongs to the level being waited for, and the flag it sets is true of that level |
| SessionStart.WaitKeepsPlan | v2/modules/channel_manager/main.py:436-452 | every step of the waiting thread keeps the levels, the starts and the memory of a first timeout consistent |
| SessionStart.WaitKeepsOrder | v2/modules/channel_manager/main.py:436-452 | every step of the waiting thread keeps the levels gone through ready and open, and starts each level with the flag down |
| SessionStart.StepKeepsInv | v2/modules/channel_manager/main.py:183-299 | every step of every process keeps the system's invariant |
| SessionStart.Invariant | v2/modules/channel_manager/main.py:436-452 | the invariant holds after every sequence of actions |
| SessionStart.LevelsStartInOrder | v2/modules/channel_manager/main.py:438-443 | while nothing timed out, a level starts only when every module of the levels before it is ready and its channel open |
| SessionStart.ResponseOnlyWhenUp | v2/modules/oaa_control_channel/handshake.py:42-49 | the discovery response goes out only when every launched module is started, configured, counted ready and open, in every run without timeouts, and with one level in every run |
| SessionStart.HopelessStaysStuck | v2/modules/channel_manager/main.py:436-452 | if no level can become ready as a whole, no run ever reports the channels ready |
| SessionOutcome.LastWaitDecides | v2/modules/channel_manager/main.py:436-452 | over every run the thread's outcome says exactly whether the latest wait to end, level or announcements, ended in time |
| SessionOutcome.ReportedOnlyInTime | v2/modules/channel_manager/main.py:436-452 | the channels are reported and the phone is answered only if the latest wait ended in time, a level wait if there are modules |
| SessionOutcome.FinishedExactly | v2/modules/channel_manager/main.py:445-452 | once the thread has finished, it failed if and only if the latest wait timed out, and otherwise reported the channels ready |
| SessionOutcome.WaitsEndExactly | v2/modules/channel_manager/main.py:208-294 | while nothing has timed out, a wait ends in time if and only if every module it waits for has come |
| SessionOutcome.OpenedExactly | v2/modules/channel_manager/main.py:280-289 | a channel is opened exactly if a level wait ended in time after its module's report; a wait that times out opens nothing |
| SessionOutcome.OrderExactly | v2/modules/channel_manager/main.py:211-212 | the order of the levels is the one that the boot wait found, for the rest of the run |
| SessionOutcome.StartsExactly | v2/modules/channel_manager/main.py:438-442 | the starts published are exactly the first ones of that order, as many as there were publications |
| SessionTimeouts.AnsweringRun | v2/modules/channel_manager/main.py:436-452 | if all channels are described, a run through all levels in the given order that answers the phone with no timeout |
| SessionTimeouts.AnswerableExactly | v2/modules/channel_manager/main.py:436-452 | for every order of the levels, some run without a timeout answers the phone if and only if the discovery response describes the channel of every module |
| SessionTimeouts.MisleadingRun | v2/modules/channel_manager/main.py:438-452 | for every order of the levels and every level that can come up, a run in which all waits but the last time out and the phone is answered with that level alone ready |
| SessionTimeouts.GuaranteeExact | v2/modules/channel_manager/main.py:436-452 | timeouts allowed, and for every order of the levels: no run answers the phone too early if and only if no level that can become ready leaves a module outside |
| Varint.ReadVarint | v2/shared/proto_utils.py:634-650 | the shifting loop computes the base-128 reading of at most ten bytes and stops where it does |
| Varint.ReadsAnyVarint | v2/shared/proto_utils.py:642-650 | every well-formed varint, the shortest or not, is read as its value and nothing more is consumed |
| Varint.ToVarintIsVarint | v2/shared/proto_utils.py:634-650 | the base-128 form has the continuation bit on all bytes but the last, encodes the value, and is no longer than it must be |
| Varint.VarintRoundTrip | v2/shared/proto_utils.py:634-650 | the reader inverts the encoding of every value below 2^64, anywhere in a buffer |
| Varint.ReadClassified | v2/shared/proto_utils.py:634-650 | a read is refused exactly when the first min(10, remaining) bytes all continue; else it consumes exactly one well-formed varint |
| MediaParser.SkipField | v2/shared/proto_utils.py:653-667 | skipping never goes back and never leaves the buffer |
| MediaParser.ScanField | v2/shared/proto_utils.py:290-313 | every turn of the scan that goes on moves forward |
| MediaParser.ParseMediaWithTimestamp | v2/shared/proto_utils.py:256-324 | on every body the loop ends without reading out of range and returns what the specification function says |
| MediaParser.ScanReadsTimestamp | v2/shared/proto_utils.py:297-301 | a fixed64 field 1 sets the timestamp to the encoded value and is consumed whole |
| MediaParser.ScanReadsPayload | v2/shared/proto_utils.py:303-308 | a bytes field 2 sets the payload to the encoded bytes and is consumed whole |
| MediaParser.ScanSkipsOther | v2/shared/proto_utils.py:310-313 | an unknown field of wire type 0, 1, 2 or 5, overlong varints included, changes nothing and is consumed whole |
| MediaParser.ScanReadsFields | v2/shared/proto_utils.py:290-313 | well-formed fields are read one by one and whole, whatever follows them |
| MediaParser.ParsesProtobufBody | v2/shared/proto_utils.py:290-316 | well-formed fields in any order parse to the last timestamp and the last payload |
| MediaParser.ParseClassified | v2/shared/proto_utils.py:315-324 | every body is read by its fields, or as timestamp and data that build back to it, or as malformed |
| MediaBodies.ScanStops | v2/shared/proto_utils.py:290-313 | fields followed by the end, a wire type 3, 4, 6 or 7, a cut fixed-width field, a cut varint, a refused length or an unknown field that is too long yield what the fields hold, whatever stands behind |
| MediaBodies.ScanClips | v2/shared/proto_utils.py:303-308 | a payload that announces more bytes than there are yields those that are there |
| MediaBodies.EveryBodySplits | v2/shared/proto_utils.py:256-324 | every body is made of well-formed fields and an end of one of these kinds, so the two rows above say how any body is read |
| MediaParser.Build | v2/shared/proto_utils.py:327-346 | packing succeeds exactly for timestamps of 64 bits |
| MediaParser.LatePayloadIsShort | v2/shared/proto_utils.py:303-308 | a payload found from byte 7 on is shorter than what follows the first eight bytes |
| MediaParser.LongPayloadHasNoTimestamp | v2/shared/proto_utils.py:297-308 | a scan that finds as many payload bytes as follow the first eight found no timestamp |
| MediaParser.ParseUndoesBuild | v2/shared/proto_utils.py:256-346 | parsing undoes building if and only if the scan finds no payload in what was built; without data, if and only if the timestamp is zero |
| MediaParser.BuiltBodyMisread | v2/shared/proto_utils.py:315-346 | a timestamp and data that do not come back |
| SchemaCompiler.ScalarField | v2/shared/proto_utils.py:670-702 | every scalar type, unknown ones included, maps to a scalar node that can be restored |
| SchemaCompiler.OneofNames | v2/shared/proto_utils.py:443-447 | a field is in the table exactly when it belongs to a oneof, under that oneof's name |
| SchemaCompiler.OneofByName | v2/shared/proto_utils.py:463 | finds the oneof of that name |
| SchemaCompiler.CompileMessage | v2/shared/proto_utils.py:466-473 | a nested message expands under the types visited so far; any other field is a scalar |
| SchemaCompiler.CompileOneof | v2/shared/proto_utils.py:463-479 | a oneof gives a node with one branch per field, the first of them active |
| SchemaCompiler.CompileField | v2/shared/proto_utils.py:482-499 | repeated fields become lists, nested messages optional messages, others scalars |
| SchemaCompiler.CompileFields | v2/shared/proto_utils.py:449-501 | the loop over the fields yields the specified entries, each oneof once at its first field |
| SchemaCompiler.Compile | v2/shared/proto_utils.py:406-501 | ends for every graph, cyclic ones included, by the types not yet visited, and yields the specified schema |
| SchemaCompiler.EachFieldOnce | v2/shared/proto_utils.py:452-499 | each field of an expanded type stands exactly once in its schema, as a key or as a branch of its oneof |
| SchemaLayout.CompiledLayout | v2/shared/proto_utils.py:449-501 | a compiled type holds exactly one entry for each field outside the oneofs and one for each oneof, in the order of the fields, each with the node its descriptor calls for |
| SchemaLayout.FieldByKey | v2/shared/proto_utils.py:482-499 | a field found by its key is a list exactly if it is repeated, else an optional message or a scalar, with kinds and defaults in figures; list items are not optional and list defaults are empty |
| SchemaLayout.OneofByKey | v2/shared/proto_utils.py:463-479 | a oneof found by its key has its first field active and its fields as branches in their order |
| SchemaCompiler.NestedSchemasAreNew | v2/shared/proto_utils.py:434-499 | a non-empty message anywhere in a compiled schema, in a list or a oneof too, is the schema of a type that the compiled type refers to, expanded with that type marked as visited and itself not yet visited |
| SchemaCompiler.NoTypeTwice | v2/shared/proto_utils.py:434-441 | along every path of nested messages in a compiled schema the field lists are the schemas of pairwise different types, each referred to by the one before and none visited before |
| SchemaCompiler.EmptyOnlyWhenVisited | v2/shared/proto_utils.py:434-441 | a type compiles to an empty schema if and only if it is already being expanded or has no fields: nothing else is cut |
| SchemaCompiler.CompiledSchemaIsSound | v2/shared/proto_utils.py:430-501 | every compiled schema nests at most as deep as there are types not yet visited, and the node constructors accept it |
| SchemaCompiler.CompiledSchemaSurvivesBus | v2/shared/proto_utils.py:406-501 | every compiled schema is restored unchanged from its dictionary |
| ConfigSchema.Get | v2/shared/config_schema.py:97-100 | looking up a key finds a value stored under it, or none exactly if there is no such key |
| ConfigSchema.RestoresScalar | v2/shared/config_schema.py:81-101 | a scalar comes back with type, default, limits and choices, whichever of them were left out |
| ConfigSchema.RestoresMessage | v2/shared/config_schema.py:119-131 | a message comes back if its fields do |
| ConfigSchema.RestoresRepeated | v2/shared/config_schema.py:147-159 | a list comes back if its item schema does |
| ConfigSchema.RestoresOneof | v2/shared/config_schema.py:174-193 | a oneof with an existing active branch comes back if its branches do |
| ConfigSchema.RestoresValidNode | v2/shared/config_schema.py:200-217 | every nesting of valid nodes comes back unchanged |
| ConfigSchema.RestoredNodeIsValid | v2/shared/config_schema.py:207-217 | whatever dictionary restoring accepts, the result is a valid node |
| ConfigSchema.SchemaRoundTrip | v2/shared/config_schema.py:260-267 | a schema comes back unchanged if and only if all its nodes are valid; a restored schema always does |
| BusForm.NodeForm | v2/shared/config_schema.py:119-186 | every key of a message, list or oneof dictionary with its value, and no other |
| BusForm.EntriesForm | v2/shared/config_schema.py:260-262 | a schema's dictionary has one entry for each node, in order, under its name |
| BusForm.EntriesRestored | v2/shared/config_schema.py:265-267 | a dictionary of nodes is restored if and only if each of its nodes is, entry by entry |
| BusForm.IncompleteNodes | v2/shared/config_schema.py:92-193 | a missing type, item schema or active branch is refused; other missing parts take their defaults |
| BusClient.Client.Publish | v2/shared/bus_client.py:112-205 | the message carries the number of publications on its topic, dropped and failed ones counted; the counters stay true of the history |
| BusClient.Client.HandleReceived | v2/shared/bus_client.py:274-330 | duplicate, gap and rewind are reported relative to the last number received from that source on that topic |
| BusClient.ReportsExactly | v2/shared/bus_client.py:318-330 | over every run a receipt is a duplicate if and only if it repeats the number before it on its key, a rewind if and only if it is below it, and a gap of exactly the numbers skipped |
| BusClient.TracedExactly | v2/shared/bus_client.py:86-87 | a topic goes without a number if and only if it begins with a blacklisted prefix |
| BusClient.Accounting | v2/shared/bus_client.py:311-330 | for every interleaving, received plus gaps is the span of the numbers plus what duplicates and rewinds add |
| BusClient.AccountingExact | v2/shared/bus_client.py:311-330 | received plus gaps equals last minus first plus one if and only if the numbers of that source and topic increase |
| BusClient.ArrivalsIncrease | v2/shared/bus_client.py:125-132 | over a channel that loses but neither reorders nor repeats, the numbers that arrive increase |
| BusClient.LossAccounting | v2/shared/bus_client.py:89-330 | over such a channel, received plus reported gaps is the number of publications from the first to arrive to the last, dropped and failed ones included |
| RfcommHandshake.RfcommModule.ClosePendingSock | v2/modules/rfcomm_handshake/main.py:240-252 | closes the pending socket once, if there is one |
| RfcommHandshake.RfcommModule.OnConnectedBegin | v2/modules/rfcomm_handshake/main.py:152-164 | during a handshake the new socket is closed; else an older pending one is, and old credentials are forgotten |
| RfcommHandshake.RfcommModule.OnConnectedEnd | v2/modules/rfcomm_handshake/main.py:165-166 | the new socket becomes the pending one |
| RfcommHandshake.RfcommModule.OnHostapdReady | v2/modules/rfcomm_handshake/main.py:173-177 | the credentials are replaced and nothing else changes |
| RfcommHandshake.RfcommModule.TryStartHandshake | v2/modules/rfcomm_handshake/main.py:184-194 | a handshake starts exactly if none runs and socket, address and non-empty credentials are there |
| RfcommHandshake.RfcommModule.PickUp | v2/modules/rfcomm_handshake/main.py:197-202 | the thread takes the pending socket and the credentials as they are by then |
| RfcommHandshake.RfcommModule.FinishHandshake | v2/modules/rfcomm_handshake/main.py:206-237 | the flag falls, and the pending socket is closed if the handshake had one |
| RfcommHandshake.KeepsOwned | v2/modules/rfcomm_handshake/main.py:152-252 | no step loses a socket or closes one twice |
| RfcommHandshake.KeepsExclusive | v2/modules/rfcomm_handshake/main.py:152-237 | no step lets the flag and the threads disagree but the death of a thread, changes the socket under a running handshake, or drops a due start check |
| RfcommHandshake.Invariant | v2/modules/rfcomm_handshake/main.py:152-252 | all of this holds after every interleaving of the locked sections and the unlocked write |
| RfcommHandshake.AtMostOneHandshake | v2/modules/rfcomm_handshake/main.py:184-237 | in every interleaving at most one handshake thread is alive, and the flag is up exactly while one is or after one died of an exception |
| RfcommHandshake.CrashIsFinal | v2/modules/rfcomm_handshake/main.py:204-237 | once a publication has raised in a handshake thread, the flag stays up without a thread and no handshake is ever triggered again |
| RfcommHandshake.OneHandshakePerSocket | v2/modules/rfcomm_handshake/main.py:184-252 | no socket is ever given to two handshakes |
| RfcommHandshake.SocketsAccountedFor | v2/modules/rfcomm_handshake/main.py:152-252 | every delivered socket is the pending one, still open, or was closed exactly once |
| RfcommHandshake.CredentialsAreNewer | v2/modules/rfcomm_handshake/main.py:152-202 | handshakes are triggered, and work, only with credentials received after their socket was delivered; the socket stays pending until closed |
| RfcommHandshake.StartedComplete | v2/modules/rfcomm_handshake/main.py:152-194 | every handshake is triggered with the non-empty address its socket came with and with non-empty credentials that were received after it |
| RfcommHandshake.StartsAreNotLost | v2/modules/rfcomm_handshake/main.py:168-194 | whenever socket, address and credentials are there, a handshake runs, or a start check is still to come, or a handshake died; a publication that raises when the socket is accepted loses no start |
| Boot.CollectModuleReady | v2/main.py:104-161 | collects until the deadline or until as many names as modules replied, and puts each name at its first priority, silent modules at 1 |
| Boot.Fallback | v2/main.py:152-159 | adds exactly the modules that never replied, at priority 1 |
| Boot.EveryModuleOnce | v2/main.py:104-161 | every discovered module stands in exactly one level, exactly once, for every stream of replies |
| Boot.RepliesHonoured | v2/main.py:130-147 | if only discovered modules reply, each that replies in time stands at the priority it asked for first |
| Boot.ReplyHonouredExactly | v2/main.py:130-159 | a reply is honoured if and only if it asks for priority 1 or fewer names than modules had replied before it |
| Boot.StrangerClosesWindow | v2/main.py:130-159 | a reply of an unknown module after which a module that asked for level 2 in time stands at level 1 |
| Boot.WaitForLevelReady | v2/main.py:164-215 | the level starts first; the log then holds exactly the reports of its modules at that level, once each, and ends with a time-out exactly if one never reports |
| Boot.StartLevels | v2/main.py:530-534 | levels start in strictly ascending order, each when every module of the lower ones has reported at its level or their time ran out |
| Boot.Run | v2/main.py:526-534 | every discovered module's level is started, in a boot that keeps both properties |

## Left out

- Sockets, ZeroMQ, threads, clocks and D-Bus: environment. Their effects are scripts, polls and actions; a timeout may
  happen at any moment at which its event is not set.
- TLS and certificates: the cryptor is a function of record number and bytes, and the handshake of the TLS object is not
  modelled.
- Generated protobuf classes, `dict_to_proto` and `ParseFromString`: message bodies are bytes, descriptors a finite
  graph that meets what the protobuf compiler guarantees.
- `v2/modules/oaa_control_channel/serializer.py`: an older copy of the frame codec.
- Session restart in `tcp_server` and the start of its server thread.
- FrameRelay.Relay.Start: stop() from another thread is an event at a recv; a stop between two frames is not modelled
  apart from it.
- FrameCodec.BuildFrame: a FIRST frame without a total, which no caller builds, is not modelled.
- FrameCodec.Encode: frames are records whose bytes are `FrameBytes`, so the concatenation inside `_build_frame` is
  stated there and not repeated as statements.
- FrameAssembler.Assembler.Feed: the chunk list of a channel is a value in the table, so appending to it in place is not
  modelled; nothing else holds a reference to it.
- SessionStart.ResponseOnlyWhenUp: is about one session and one discovery request. A second request while a session is
  starting, a shutdown in the middle of a start, crashed modules, and messages without channels are not modelled.
- SessionStart.Invariant: each launched module has a name of its own and announces itself once; resolving channels to
  module types and spawning processes are parameters.
- BusClient.Client.Publish: calls on one client do not overlap, as the counter has no lock; two threads that publish on
  one topic at once can get the same number.
- BusClient.Client.HandleReceived: handlers, latencies and the trace file are left out; a sequence number is an integer.
- RfcommHandshake.AtMostOneHandshake: writes to the credentials between two statements of a locked section are modelled
  where they can make a difference, between the clearing of the credentials and the storing of the socket.
- RfcommHandshake.CredentialsAreNewer: credentials that arrive empty between trigger and pick-up are handed to the
  handshake as they are, as in the code.
- ConfigSchema.RestoredNodeIsValid: is about dictionaries whose values have the types that serialising writes; the code
  stores values of other types unchecked, and the model has them as errors.
- ConfigSchema.SchemaRoundTrip: restoring a dictionary with values of unexpected types is an error in the model, where
  the code may fail later; numbers are real numbers, without rounding.
- Boot.CollectModuleReady: messages that are JSON but not objects, or name a priority that is not a number, are left
  out; module names are directory names, so no two are equal.
- Log messages, except the one that raises.
- `app/`, `services/`, the user interfaces, the audio, Bluetooth and hostapd managers: plumbing around the parts above.
