# InfraFi, verified in Dafny

InfraFi sends Wi-Fi credentials from a handheld to a headless machine over infrared, one octet per
scancode, on a channel that loses and garbles frames and carries foreign ones. This project models the
parts where that can go wrong and proves what they promise:

- **Checksum** (`Crc`, `CrcAlgebra`, `Gf2`, `CrcErrors`): the table-driven CRC-8 against the bit-serial
  register, the register against polynomial division over GF(2), and the errors it always catches.
- **Payload text** (`Codec`, `CodecBuffers`): the escaping builder and the searching parser, as functions
  and as they run over caller-supplied buffers, and their round trip.
- **Link** (`Link`, `DaemonDecoder`, `AckDecoder`, `History`, `Noise`): the reassembling decoders of both
  sides as classes over a fixed buffer, refined to one abstract link, and that link refined to a statement
  about the history of scancodes.
- **Transmission** (`Transmission`, `Loss`, `Sender`, `Daemon`, `Ack`): the frames both senders emit and what
  the other side makes of them, from the credentials entered to the credentials asked for and back to the
  acknowledgement, with damage, loss, cancelling and timing.
- **Shell quoting** (`Shell`): the printer, a reader for section 2.2 of the POSIX Shell Command Language,
  and the command built from it.
- **NFC tags** (`Nfc`, `NfcWidth`, `NfcBuffers`, `NfcEncoding`, `NfcTags`, `NfcOctets`): the three nested
  parsers, sizes of 32 bits in them, an encoder written from the standards, each layer of it one to one with
  what the parser reads, what is found on every tag, and all of it down to octets.
- **Transmit session** (`Session`, `SessionOutcomes`, `SessionApp`): transmit thread, receive worker, timer and
  main thread as interleaved steps over one event queue, and what every event comes to.

How things are modelled. Octets are integers 0..255 and masks are written as division and remainder; only
the checksum uses bit vectors. A `const` input buffer or string is a sequence, a C string being one without
0; buffers that are written are arrays. Buffers that are read back as C strings are read up to the first
NUL. Sizes are natural numbers, except in the sums of the NFC parser that can pass 2^32 on the handheld
(`NfcWidth`); every other sum there is of lengths of 16 bits. The clock is an argument of each call. Where a
method is proved against a function of its inputs, the properties of the system are lemmas about that
function. Lemmas whose names end in `InNumbers`, `InText` or `InOctets` say what such a function computes in
literal octets, codes and times, so that no constant is fixed by its own name alone.

Assumptions of the session model. The event queue is first-in first-out. Handlers of the main thread are
atomic. After a join, a worker stop or a timer free has returned, that thread or timer posts nothing more;
what it posts while being stopped counts as posted just before. The scene is entered on a confirmation
event posted after the scene was last left, because leaving goes to the main menu, which ignores
confirmations. The numbers carried by queued events (`run`, `visit`) and the list of texts heard are
history for the statements; no handler looks at `run` or that list, and `visit` stands for that assumption
alone.

Some statements one might expect are not true of the code. For each there is a concrete run or input, and the
exact condition is proved instead.

- The NFC parser is not safe on every tag. Sizes have 32 bits on the handheld, and the lengths in a record header
  can wrap the sums at flipper/wfr_nfc.c:129 and 173-174. On one message of six octets the loop never ends
  (`NfcWidth.StallingNeverStops`), on another it reads outside (`NfcWidth.OverlongFaults`). It ends, stays inside
  and takes exactly the records that fit if and only if the natural reading reaches no record that wraps
  (`NfcWidth.FollowsExactlyWhen`, `NfcTags.AstrayExactlyWhen`); then it is that reading.
- Loss is not always silent. On a link that is still open from an earlier send, a pass that loses its START can
  complete a mixture that checks, and wrong credentials are asked for (`Loss.WrongNetwork`).
  `Loss.LossyPass` says for every loss exactly what is delivered.
- The two decoders do not agree on all silences below 2^32 ms: the tick difference is taken from the START, so
  silences must stay at or below 2^32 - 30000 ms (`AckDecoder.Bisimulation`, `AckDecoder.PaceIsTight`). In
  state and in results they stay together exactly when no scancode comes in the 30 s after a whole turn of the
  tick counter since the START in force (`AckDecoder.TogetherExactlyWhen`, `AckDecoder.AlikeExactlyWhen`).
- Credentials found on a tag are not always sendable, because an SSID attribute that begins with NUL is
  accepted (`NfcTags.EmptySsidAccepted`); they are exactly when the last accepted SSID does not
  (`NfcTags.FoundCredsSendable`).

The header of the daemon's decoder lists a bad checksum among the causes of -1 (daemon/wfr_decode.h:36-39); the
code returns 0 (daemon/wfr_decode.c:109-118), and the model follows the code (`Link.EndConcludes`;
`Link.FailedExactlyWhen` lists the causes there are).

## Model

| member | source | states |
|---|---|---|
| Crc.TableEntryIsEightShifts | flipper/protocol/wfr_protocol.c:5-38 | all 256 entries of the lookup table are right: each is eight clocks of the shift register, in closed form |
| CrcAlgebra.TableEntryIsEightClocks | flipper/protocol/wfr_protocol.c:5-38 | each table entry is what eight clocks of the bit-serial register make of its index |
| CrcAlgebra.CrcSnoc | flipper/protocol/wfr_protocol.c:42-44 | one more octet is one table lookup at the exclusive or of checksum and octet |
| CrcAlgebra.ComputeCrc8 | flipper/protocol/wfr_protocol.c:40-46 | the table-driven loop computes the bit-serial CRC of the first len octets, for every buffer |
| CrcAlgebra.CrcLinear | flipper/protocol/wfr_protocol.c:40-46 | the checksum of a bitwise difference is the bitwise difference of the checksums |
| CrcAlgebra.CrcResidue | flipper/protocol/wfr_protocol.c:40-46 | payload followed by one octet has checksum 0 exactly when that octet is the checksum |
| Gf2.CrcIsRemainder | flipper/protocol/wfr_protocol.c:4-46 | the checksum is the remainder of message * x^8 by x^8+x^2+x+1 over GF(2), and quotient and remainder are the only ones |
| Gf2.DivisionUnique | flipper/protocol/wfr_protocol.c:4-46 | division by the generator has one quotient and one remainder |
| CrcErrors.BurstLeavesTrace | flipper/protocol/wfr_protocol.c:40-46 | no non-zero burst spanning at most 8 bits leaves the register at zero |
| CrcErrors.ParityOfRegister | flipper/protocol/wfr_protocol.c:40-46 | the parity of the register is the parity of the number of ones shifted in |
| CrcErrors.ErrorDetected | flipper/protocol/wfr_protocol.c:40-46 | a payload and checksum hit by one burst of at most 8 bits, an odd number of flips, or two flips whose distance is no multiple of 127 never checks |
| CrcErrors.TwoFlipsPassExactlyWhen | flipper/protocol/wfr_protocol.c:40-46 | two flipped bits, anywhere in payload and checksum, go unnoticed exactly when their distance is a multiple of 127 |
| CrcErrors.PeriodExactlyWhen | flipper/protocol/wfr_protocol.c:40-46 | so many clocks take the register that one bit leaves back to itself: exactly the multiples of 127 |
| Codec.EscapeHasNoKey | flipper/protocol/wfr_protocol.c:122-136 | in escaped text no key followed by a colon can occur, and it never starts with a colon |
| Codec.EscapesExactly | flipper/protocol/wfr_protocol.c:122-136 | exactly the five octets of \;:", are escaped, each by a backslash in front |
| Codec.EscapeConcat | flipper/protocol/wfr_protocol.c:127-136 | a text is escaped octet by octet |
| Codec.NoKeyBefore | flipper/protocol/wfr_protocol.c:138-187 | in the built text no field key occurs anywhere before its own field, whatever SSID and password contain |
| Codec.ExtractAtFirstKey | flipper/protocol/wfr_protocol.c:194-218 | the substring search stops at the first key and reads the value there |
| Codec.NoKeyNoField | flipper/protocol/wfr_protocol.c:194-218 | a field is not found exactly when its key occurs nowhere |
| Codec.ReadEscaped | flipper/protocol/wfr_protocol.c:201-211 | reading an escaped value up to its semicolon gives the original, cut to the room there is |
| Codec.ReadsPieces | flipper/protocol/wfr_protocol.c:201-211 | reading any value: octets for themselves, protected octets without their backslash, up to a semicolon, the end, or a backslash that protects nothing |
| Codec.EveryTextIsPieces | flipper/protocol/wfr_protocol.c:201-211 | and every text is of that form |
| Codec.ParseBuild | flipper/protocol/wfr_protocol.c:138-260 | for all credentials whatsoever, what parsing the built text gives: over-long fields cut, unknown security read as open, only an empty SSID refused |
| Codec.RoundTrip | flipper/protocol/wfr_protocol.c:138-260 | parse(build(c)) = c if and only if c is valid (SSID 1..32, password 0..63, security 0..3) |
| Codec.RoundTripInNumbers | flipper/protocol/wfr_protocol.c:138-260 | the same with the limits as numbers |
| Codec.ParseInText | flipper/protocol/wfr_protocol.c:220-260 | every text: when it parses and to what, absent password and absent H: included |
| Codec.SecurityInText | flipper/protocol/wfr_protocol.c:228-242 | only the names WPA, WEP and SAE are known, any other reads as open |
| Codec.BuildFormat | flipper/protocol/wfr_protocol.h:22 | the built text is the documented format, octet for octet |
| Codec.TypeNamesInText | flipper/protocol/wfr_protocol.c:141-147 | the names of the security types, and nopass for every other number |
| Codec.ParseNormalises | flipper/protocol/wfr_protocol.c:220-260 | whatever parses gives valid credentials, and parse(build(parse(s))) = parse(s) |
| Codec.BuildSize | flipper/protocol/wfr_protocol.c:138-187 | valid credentials build to 26..219 octets without NUL |
| Codec.BuildSizeTight | flipper/protocol/wfr_protocol.c:138-187 | both bounds are reached |
| CodecBuffers.EscapeFitIsPrefix | flipper/protocol/wfr_protocol.c:127-136 | what the bounded append writes is the escape of a prefix, no pair split; if anything was cut at most one octet of room is left |
| CodecBuffers.EscapeAppend | flipper/protocol/wfr_protocol.c:127-136 | the append loop writes exactly that, after what is already there |
| CodecBuffers.EscapeAppendChecked | flipper/protocol/wfr_protocol.c:167-181 | a truncated append is always caught by the length check that follows it |
| CodecBuffers.BuildType | flipper/protocol/wfr_protocol.c:139-165 | prefix and security type, or a refusal exactly when they do not fit |
| CodecBuffers.BuildRest | flipper/protocol/wfr_protocol.c:167-186 | the rest of the text after what is there, with its terminator, or 0 exactly when it does not fit |
| CodecBuffers.BuildWifiString | flipper/protocol/wfr_protocol.c:138-187 | all or nothing for every buffer size: the exact text, its length and terminator when it fits, 0 when not |
| CodecBuffers.CopyValue | flipper/protocol/wfr_protocol.c:201-212 | the value loop writes the value as read and its terminator within the buffer |
| CodecBuffers.ExtractFieldInto | flipper/protocol/wfr_protocol.c:194-218 | the search loop returns the value and its length, or -1 with the buffer untouched |
| CodecBuffers.ParseType | flipper/protocol/wfr_protocol.c:228-242 | the security type through its 16-octet buffer |
| CodecBuffers.TypeOfInText | flipper/protocol/wfr_protocol.c:228-242 | the type that a refused text leaves behind, by name |
| CodecBuffers.ParseHidden | flipper/protocol/wfr_protocol.c:253-257 | the hidden flag through its 8-octet buffer |
| CodecBuffers.ParseWifiString | flipper/protocol/wfr_protocol.c:220-260 | the in-place parser fills the struct with what the text says, and says what is left in it on failure |
| CodecBuffers.CredsBuffer.Clear | flipper/protocol/wfr_protocol.c:226 | the struct reads as empty open credentials after memset |
| DaemonDecoder.BorrowIsExact | daemon/wfr_decode.c:21-24 | the comparison in whole seconds with a nanosecond borrow is exactly "30 s or more have passed" |
| Link.AddressInNumbers | flipper/protocol/wfr_protocol.h:24-27 | the address octets are 0xA0, 0xA4 and 0xA8 plus the pass number, and read back as their kind and pass |
| Link.KindInNumbers | flipper/protocol/wfr_protocol.h:24-27 | what each of the 256 address octets is |
| Link.LateInNumbers | daemon/wfr_decode.c:15-30 | late is 30 s after the START, to the nanosecond |
| Link.CodeInNumbers | daemon/wfr_decode.c:32-138 | what the caller is told: the length, -1 or 0 |
| Link.FailedExactlyWhen | daemon/wfr_decode.c:39-57 | a scancode is reported as -1 exactly when it comes too late for the open transmission or is a START of length zero |
| Link.EndConcludes | daemon/wfr_decode.c:106-133 | an END that finds every octet delivers them, or on a failed checksum zeroes the cursor and reports nothing |
| DaemonDecoder.WfrDecoder.constructor | daemon/wfr_decode.c:7-9 | a new decoder is idle |
| DaemonDecoder.WfrDecoder.Reset | daemon/wfr_decode.c:11-13 | the decoder is idle with cursor and pass at zero |
| DaemonDecoder.WfrDecoder.CheckTimeout | daemon/wfr_decode.c:15-30 | resets exactly when a transmission is open and has timed out; otherwise changes nothing |
| DaemonDecoder.WfrDecoder.OnStart | daemon/wfr_decode.c:48-76 | zero length is refused without a change; any other START opens a transmission with an empty pass |
| DaemonDecoder.WfrDecoder.OnData | daemon/wfr_decode.c:78-92 | an octet is appended while there is room and the transmission is open; otherwise nothing changes |
| DaemonDecoder.WfrDecoder.OnEnd | daemon/wfr_decode.c:94-133 | delivers, fails, or zeroes the cursor, as the octets since the last reset decide |
| DaemonDecoder.WfrDecoder.HandOver | daemon/wfr_decode.c:126-132 | the octets of the pass and a NUL are in the caller's buffer, and the decoder is idle |
| DaemonDecoder.WfrDecoder.FeedScancode | daemon/wfr_decode.c:32-138 | on fixed buffer, cursor and clock: exactly one step of the abstract link; output buffer and return value tell the outcome, without a delivery the buffer is untouched, and the pass number kept is that of the last START accepted |
| Daemon.HandleCredentials | daemon/main.c:51-57 | what the parser gets is the receive buffer up to its first NUL; what parses goes on to the network |
| Daemon.RequestExactlyWhen | daemon/main.c:51-58 | one payload asks for nothing exactly when it does not parse, and else for what it parses to |
| Daemon.NothingAskedExactlyWhen | daemon/main.c:51-58 | a run asks for nothing exactly when no payload parses |
| Daemon.AskedFor | daemon/main.c:51-58 | nothing is asked for that no payload parses to |
| Daemon.AcksAskNothing | daemon/main.c:51-58 | acknowledgements ask for nothing, however many are delivered |
| Daemon.HearingAnAckAsksNothing | daemon/main.c:189-209 | a daemon that hears the acknowledgement frames of another asks for nothing |
| Daemon.Hear | daemon/main.c:189-209 | one turn of the main loop: a failed read changes nothing; a scancode asks for exactly the credentials in what one step of the link delivers |
| Daemon.Listen | daemon/main.c:189-209 | over any run of reads the main loop asks for exactly the credentials in what the link delivers; on a fresh decoder, in what the history of scancodes says |
| Daemon.EmittedIsHeard | flipper/wfr_encode.c:16-67 | whatever part of a send got out, the daemon asks for the credentials entered if it was all of it and for nothing otherwise |
| Daemon.OverTheAir | flipper/wfr_encode.c:16-67 | from the sender through the decoder and the main loop to the parser: the credentials entered come out once exactly when no report was refused, and nothing else does |
| History.HistoryTracksState | daemon/wfr_decode.c:32-138 | after every prefix of a run the decoder holds what the history of scancodes says: octets since the last reset, START in force |
| History.DeliveredExactlyWhen | daemon/wfr_decode.c:94-133 | whole-run refinement: a delivery at a position exactly when an END in time finds at least n DATA octets after the last reset with that checksum; the first n are the output |
| History.StartAccepted | daemon/wfr_decode.c:39-75 | a START is accepted unless its length is zero or it arrives on a timed-out transmission |
| History.StartInForce | daemon/wfr_decode.c:48-76 | the START named by the history is the one accepted, not replaced, not outlived and not yet delivered; both directions |
| History.ResetIsLast | daemon/wfr_decode.c:94-118 | every END since the last reset came too early to be checked |
| History.ResetIsFailure | daemon/wfr_decode.c:106-118 | a reset other than the START is an END of the same transmission with a failed checksum |
| History.DeliveryHasStart | daemon/wfr_decode.c:15-30 | every delivery has an earlier START in force, less than 30 s before it, that announced its length |
| History.DeliveriesShareNoStart | daemon/wfr_decode.c:120-132 | no two deliveries share a START |
| History.DeliveriesByHistory | daemon/wfr_decode.c:94-133 | all that a fresh decoder delivers in a run, in order, is what the history says |
| History.PassIsOfStart | daemon/wfr_decode.c:48-76 | the pass number kept is that of the START in force, and zero when there is none |
| Noise.NoiseIsHarmless | daemon/wfr_decode.c:42-136 | inserting or deleting foreign, reserved, zero-length-START, surplus-DATA, short-END or out-of-transmission scancodes and rewriting pass bits changes no delivery |
| Noise.InertIsSilent | daemon/wfr_decode.c:42-136 | a scancode of those kinds leaves the state alone and delivers nothing |
| Noise.InsertOne | daemon/wfr_decode.c:42-136 | one such scancode can be inserted or deleted at any point of any run |
| Noise.OnlyNoiseIsInert | daemon/wfr_decode.c:42-136 | every other scancode in time changes the state, unless it repeats the START just seen |
| Noise.RewritingPass | flipper/protocol/wfr_protocol.h:24-27 | the pass number can be rewritten without changing anything else of a frame |
| Transmission.OnePass | daemon/wfr_decode.c:48-133 | a pass among foreign scancodes, from any state without timeout: delivered at its END if the checksum holds, else nothing, cursor zero, transmission open |
| Transmission.AllPasses | flipper/wfr_encode.c:40-64 | any number of passes: each delivered exactly once, at its END |
| Transmission.EndToEnd | flipper/wfr_encode.c:16-67 | end to end: valid credentials sent to a link in any state are handed over once per pass and parse to the credentials sent |
| Transmission.DamageThenRecovery | daemon/wfr_decode.c:106-118 | a pass with a detectable error delivers nothing, leaves the transmission open at cursor zero, and the next clean pass is delivered |
| Loss.WithoutStart | daemon/wfr_decode.c:78-133 | octets and perhaps an END without a START, on a link in any state: delivered exactly when the END arrives and what is then held is as long as announced and has its checksum |
| Loss.LossyPass | daemon/wfr_decode.c:48-133 | every loss of any frames of a pass, on a link in any state: it delivers something exactly when its START is lost, its END arrives and the mixture with what the open transmission had is complete and checks; then it delivers that mixture |
| Loss.WrongNetwork | daemon/wfr_decode.c:78-133 | loss alone can deliver wrong credentials: for every SSID with three octets like cbe a run in which frames are only lost and a different SSID is delivered and parses |
| Loss.ConfusableExample | daemon/wfr_decode.c:78-133 | the name cbe is one of them and is delivered as ccb |
| Loss.LossThenRecovery | daemon/wfr_decode.c:48-133 | whatever was lost, the next complete pass is delivered |
| Transmission.CutShort | flipper/wfr_encode.c:49-55 | a pass cut before its END delivers nothing |
| Transmission.SteadyPassDelivers | daemon/wfr_decode.c:15-30 | with gaps of at most 136 ms even the longest credentials never time out and are delivered |
| Transmission.CleanRunDelivers | flipper/wfr_encode.c:16-67 | every valid credentials do get through on a fresh link, once per attempt |
| Sender.SendPass | flipper/wfr_encode.c:41-58 | one attempt: START, octets with a report after each, END; stops right after the first refused report |
| Transmission.PassInNumbers | flipper/wfr_encode.c:41-58 | the frames of a pass in numbers: 0xA0 + pass with the length, 0xA4 + pass with each octet, 0xA8 + pass with the checksum |
| Transmission.AttemptInNumbers | flipper/wfr_encode.c:40-64 | attempt k is a pass with number k modulo four, in its place |
| Sender.OnTheAirInNumbers | flipper/wfr_encode.c:38-66 | what is out when a report is refused, frame by frame |
| Sender.Prepare | flipper/wfr_encode.c:21-29 | payload and checksum, or nothing when there is no SSID or no room |
| Sender.SendAll | flipper/wfr_encode.c:38-66 | first report, then the attempts |
| Sender.TransmitCredentials | flipper/wfr_encode.c:16-67 | the sender emits exactly the frames up to the first refused report and succeeds exactly when none is refused |
| Sender.CancelledDeliversNothing | flipper/wfr_encode.c:38-55 | what a cancelled send has emitted delivers nothing on any link |
| Sender.CompletedDelivers | flipper/wfr_encode.c:16-67 | what a completed send of valid credentials has emitted is delivered once and parses |
| AckDecoder.WfrAckDecoder.FeedScancode | flipper/wfr_decode.c:27-111 | the handheld decoder takes one step of the same link, on a wrapping tick counter |
| AckDecoder.WfrAckDecoder.Reset | flipper/wfr_decode.c:7-13 | the decoder is idle |
| AckDecoder.WfrAckDecoder.CheckTimeout | flipper/wfr_decode.c:15-25 | resets exactly when a transmission is open and the wrapped tick difference reaches 30 s; otherwise changes nothing |
| AckDecoder.TickLateInNumbers | flipper/wfr_decode.c:15-25 | late is 30000 ticks of a counter modulo 2^32 |
| AckDecoder.WfrAckDecoder.OnStart | flipper/wfr_decode.c:42-64 | as the daemon decoder, on ticks |
| AckDecoder.WfrAckDecoder.OnData | flipper/wfr_decode.c:66-73 | as the daemon decoder |
| AckDecoder.WfrAckDecoder.OnEnd | flipper/wfr_decode.c:75-106 | as the daemon decoder, on its own buffer |
| AckDecoder.ClocksAgreeExactlyWhen | flipper/wfr_decode.c:15-25 | the two timeout tests agree exactly when the elapsed time is under 2^32 ms or not within 30 s after a whole turn of the counter |
| AckDecoder.Bisimulation | flipper/wfr_decode.c:15-111 | on every run in time order with silences of at most 2^32 - 30000 ms the two decoders report the same at every scancode |
| AckDecoder.StepTogetherExactlyWhen | flipper/wfr_decode.c:15-111 | one scancode keeps decoders in the same state together, in report and state, exactly when it does not come in the 30 s after a whole turn of the counter since the START |
| AckDecoder.TogetherExactlyWhen | flipper/wfr_decode.c:15-111 | on every run in time order the two stay together exactly when every scancode meets that condition |
| AckDecoder.PartingShows | flipper/wfr_decode.c:15-111 | a scancode that does not meet it shows in the reports, at once or as soon as the pass is completed |
| AckDecoder.AlikeExactlyWhen | flipper/wfr_decode.c:15-111 | by results alone: on every run in time order no break-off and no continuation at that instant tells the two apart exactly when every scancode meets that condition |
| AckDecoder.PaceIsTight | flipper/wfr_decode.c:15-25 | a silence one tick longer can make them differ (a concrete run) |
| Ack.SendFrames | daemon/wfr_ack.c:84-107 | frames go out in order until the first write that fails; success exactly when all are out |
| Ack.LircTx.SendRc6 | daemon/wfr_ack.c:39-51 | one write: the scancode is out if the device takes it, else nothing is; any write may fail |
| Ack.SendAck | daemon/wfr_ack.c:61-108 | payload choice, refusal of what does not fit, then the frames |
| Ack.OnSignal | flipper/scenes/wi_fir_scene_transmit.c:24-52 | undecoded and foreign-protocol signals change nothing; a complete payload raises one event |
| Ack.ClassifyAck | daemon/wfr_ack.c:68-72 | reported as success with the same text (up to 63 octets) exactly when there was a success and an address; else failure |
| Ack.PayloadsInText | daemon/wfr_ack.c:64-72 | the payloads are OK: with the address, and FAIL |
| Ack.ClassifyInText | flipper/scenes/wi_fir_scene_transmit.c:41-50 | a payload is a success exactly when it begins with OK:, with up to 63 octets of text |
| Ack.AckRoundTrip | daemon/wfr_ack.c:61-108 | the daemon's frames among foreign scancodes raise exactly that one event on a fresh listener |
| Ack.Listen | flipper/scenes/wi_fir_scene_transmit.c:24-52 | the receive worker over any run of signals raises exactly the events of what the decoder delivers |
| Ack.OverTheAir | daemon/wfr_ack.c:61-108 | from the daemon through device, air and decoder to the event: what was to be reported, once, exactly when every write succeeded, and nothing at all otherwise |
| Ack.NoCrosstalk | flipper/scenes/wi_fir_scene_transmit.c:41-50 | no acknowledgement parses as credentials and no credential payload classifies as success |
| Shell.ReadsQuoted | daemon/wfr_network.c:14-38 | the shell reads a quoted string back as the string, whatever follows and whatever it contains |
| Shell.ShellRoundTrip | daemon/wfr_network.c:14-38 | the quoted string is read as the one word it was printed from |
| Shell.QuotedInText | daemon/wfr_network.c:14-38 | the quoted string octet by octet |
| Shell.ShellEscape | daemon/wfr_network.c:14-38 | writes the quoted string exactly when 2 + length + 3 * quotes is below the buffer size; 0 otherwise |
| Shell.CommandRunsAsIntended | daemon/wfr_network.c:270-293 | whatever SSID and password contain, the shell splits the command into exactly the intended arguments, with errors joined to the output |
| Shell.CommandInText | daemon/wfr_network.c:270-293 | the command in text |
| Shell.CommandFits | daemon/wfr_network.c:262-292 | for everything the parser can return neither buffer overflows and the command is not truncated |
| Shell.BuildCommand | daemon/wfr_network.c:262-293 | the assembly refuses exactly what its buffers cannot hold quoted, and otherwise yields the command, cut at 1023 octets; for parsed credentials the whole command |
| Nfc.FoundExactlyWhen | flipper/wfr_nfc.c:50-56 | an SSID is found exactly when some leaf holds one of length 1..32 |
| Nfc.LastSsidWins | flipper/wfr_nfc.c:50-56 | the last accepted SSID leaf wins; without one the field keeps its value |
| Nfc.LastAuthWins | flipper/wfr_nfc.c:58-68 | the last accepted authentication type wins |
| Nfc.LastKeyWins | flipper/wfr_nfc.c:70-75 | the last accepted key wins |
| Nfc.HeadersAgree | flipper/wfr_nfc.c:84-184 | the two header parsers agree: inside a record that fits no length check fails and the payload is exactly its end; for sums of 32 bits see `NfcWidth` |
| NfcBuffers.ApplyLeaf | flipper/wfr_nfc.c:44-76 | the switch on one attribute, on the NUL-terminated buffers |
| NfcBuffers.Store | flipper/wfr_nfc.c:51-54 | memcpy and terminator leave the C string of the value |
| NfcBuffers.ParseAttribute | flipper/wfr_nfc.c:44-76 | one attribute contributes its own leaves |
| NfcBuffers.NextAttribute | flipper/wfr_nfc.c:37-79 | one turn of the attribute loop |
| NfcBuffers.ParseWscAttributes | flipper/wfr_nfc.c:30-82 | the recursive in-place parser is a left fold over the flattened leaves; a malformed tail ends only its container |
| NfcBuffers.FindPayload | flipper/wfr_nfc.c:84-129 | the record parser's reading of the header for every octet string, its last sum 32 bits wide |
| NfcBuffers.ParseNdefRecord | flipper/wfr_nfc.c:84-134 | clears the struct and folds the payload's attributes for a Wi-Fi record whose payload does not wrap; otherwise changes nothing |
| NfcBuffers.Measure | flipper/wfr_nfc.c:141-174 | the message loop's reading of the header and its check, both sums 32 bits wide |
| NfcBuffers.NextRecord | flipper/wfr_nfc.c:140-184 | one turn of the record loop at a record that does not wrap: it moves on or stops as the natural reading does |
| NfcBuffers.ParseNdefMessage | flipper/wfr_nfc.c:136-187 | within bounds, terminating, and the natural reading, on every message in which no record that is reached wraps |
| NfcBuffers.TlvLength | flipper/wfr_nfc.c:211-222 | one-octet and three-octet lengths |
| NfcBuffers.NextTlv | flipper/wfr_nfc.c:205-231 | one turn of the TLV loop |
| NfcBuffers.ParseArea | flipper/wfr_nfc.c:203-233 | the TLV loop, within bounds and terminating, on every data area whose messages do not lead astray |
| NfcBuffers.ParseWifiTag | flipper/wfr_nfc.c:189-234 | the entry point on every tag that does not lead astray: answer and struct are what the natural reading of the tag says |
| NfcWidth.PassedExactlyWhen | flipper/wfr_nfc.c:173-174 | the loop's check with 32-bit sums takes a record exactly when it fits, if and only if its end does not wrap back into the message |
| NfcWidth.SpanExactlyWhen | flipper/wfr_nfc.c:126-129 | the payload that the record parser accepts lies inside the record if and only if its end does not wrap |
| NfcWidth.FaultsExactlyWhen | flipper/wfr_nfc.c:140-184 | exactly when a turn of the loop reads outside of the message |
| NfcWidth.StallsExactlyWhen | flipper/wfr_nfc.c:140-184 | exactly when a turn of the loop leaves the cursor where it is: lengths that add up to 2^32, without the message-end flag |
| NfcWidth.FollowsExactlyWhen | flipper/wfr_nfc.c:136-187 | safety and termination on every message: the loop ends, stays inside and takes exactly the records that fit, if and only if the natural reading reaches no record that wraps; then it stops within as many turns as there are octets and one, with that reading |
| NfcWidth.StallingNeverStops | flipper/wfr_nfc.c:173-181 | a message of six octets on which the loop never ends |
| NfcWidth.OverlongFaults | flipper/wfr_nfc.c:126-133 | a message of 284 octets on which the first turn reads outside of it |
| NfcTags.AstrayExactlyWhen | flipper/wfr_nfc.c:136-187 | the same condition in terms of the message: no record on it is taken, none ends it, and the header behind the last one wraps |
| NfcTags.AreaAstrayExactlyWhen | flipper/wfr_nfc.c:203-233 | and of the data area: the first message that would be astray comes before any record is taken |
| NfcTags.ReadTag | flipper/wfr_nfc.c:189-234 | the handheld on every tag that does not lead it astray: the first Wi-Fi record with an acceptable SSID, as `NfcTags.TagPicks` has it |
| NfcEncoding.FlattenEncode | flipper/wfr_nfc.c:30-82 | flattening an encoded attribute tree of any nesting, with a malformed tail at the end of any container, gives its leaves in order: the tail ends that container and nothing else |
| NfcEncoding.EveryPayloadEncodes | flipper/wfr_nfc.c:30-82 | every octet string is the encoding of such a tree |
| NfcEncoding.EncodingUnique | flipper/wfr_nfc.c:30-82 | and of only one |
| NfcEncoding.FindsPayload | flipper/wfr_nfc.c:84-134 | on an encoded record (short or long, with or without ID) the payload is found exactly for Wi-Fi records |
| NfcEncoding.EveryRecordEncodes | flipper/wfr_nfc.c:136-174 | whatever fits as a record is the encoding of one, in all its fields |
| NfcEncoding.RecordUnique | flipper/wfr_nfc.c:136-174 | and of only one |
| NfcEncoding.EveryTlvEncodes | flipper/wfr_nfc.c:203-224 | whatever the area loop reads as a block is the encoding of one |
| NfcEncoding.TlvUnique | flipper/wfr_nfc.c:203-224 | and of only one |
| NfcTags.FoldKeepsLast | flipper/wfr_nfc.c:44-76 | of attributes in any order, repeated or rejected, the last accepted SSID, type and key are kept, and an SSID is found exactly when one is accepted |
| NfcTags.EveryMessageEncodes | flipper/wfr_nfc.c:136-187 | every message is its records one after the other and a rest |
| NfcTags.WhereMessageEnds | flipper/wfr_nfc.c:136-187 | only its last record can end a message, and if none does the rest holds no record that fits |
| NfcTags.EveryAreaEncodes | flipper/wfr_nfc.c:203-233 | every data area is its blocks one after the other and a rest that cannot be read |
| NfcTags.MessagePicks | flipper/wfr_nfc.c:136-187 | the natural reading of every message: success exactly when some record is a Wi-Fi record with an acceptable SSID, with the credentials of the first |
| NfcTags.TagPicks | flipper/wfr_nfc.c:189-234 | the natural reading of every tag, which the handheld follows where it is not led astray: success exactly when some record on it is a Wi-Fi record with an acceptable SSID; the credentials are the last accepted attributes of the first such record and nothing of any other |
| NfcTags.ReadsRecords | flipper/wfr_nfc.c:136-187 | a message laid out record by record is read back record by record |
| NfcTags.ReadsTlvs | flipper/wfr_nfc.c:203-233 | an area laid out block by block is read back block by block |
| NfcTags.PrependBlocks | flipper/wfr_nfc.c:205-231 | NULL blocks, blocks of other types and messages without such a record change nothing when put in front, and lead astray exactly when one of them does |
| NfcTags.PrependRecords | flipper/wfr_nfc.c:176-184 | nor do other records without the message-end flag |
| NfcTags.TagRoundTrip | flipper/wfr_nfc.c:189-234 | a tag laid out by the standards, with such blocks and records before the Wi-Fi record and anything behind it, reads as exactly what its attribute tree says, and leads astray exactly when a block in front does |
| NfcTags.ReadsWritten | flipper/wfr_nfc.c:189-234 | a concrete tag for every attribute tree that fits; it does not lead astray and it is read back |
| NfcTags.WriteThenRead | flipper/wfr_nfc.c:189-234 | every carriable credentials are written as the standard has them, an empty key with length zero, and read back as exactly those |
| NfcTags.CarriableExactlyWhen | flipper/wfr_nfc.c:61-67 | some attributes say given valid credentials exactly when these are neither SAE nor hidden |
| NfcTags.FoundCredsSendable | flipper/wfr_nfc.c:189-234 | on every tag, credentials found by the natural reading survive the infrared round trip exactly when the last accepted SSID of their record does not begin with NUL |
| NfcTags.EmptySsidAccepted | flipper/wfr_nfc.c:51-55 | a whole tag that is answered with empty credentials, which the parser at the other end refuses |
| NfcOctets.AcceptsInNumbers | flipper/wfr_nfc.c:4-8 | identifiers and lengths that are accepted: 0x1045 of 1 to 32 octets, 0x1003 of 2, 0x1027 of 1 to 63 |
| NfcOctets.FlattenInNumbers | flipper/wfr_nfc.c:37-49 | how an attribute is read from its octets, and that 0x100E is opened up |
| NfcOctets.SecuritySaid | flipper/wfr_nfc.c:58-68 | open without an accepted type or with 00 01, WEP with 00 04, WPA with every other |
| NfcOctets.SecurityOnTag | flipper/wfr_nfc.c:58-68 | on every tag that is answered: the security by the octets of the last accepted type of its record |
| NfcOctets.SsidTextSaid | flipper/wfr_nfc.c:50-56 | the SSID is the octets of the last accepted one up to the first NUL |
| NfcOctets.KeyTextSaid | flipper/wfr_nfc.c:70-75 | and so is the key |
| NfcOctets.FlagsInNumbers | flipper/wfr_nfc.c:87-90 | which bits of the flags are read |
| NfcOctets.HeaderInNumbers | flipper/wfr_nfc.c:141-171 | a record header from its octets, short and long, with and without ID |
| NfcOctets.TlvInNumbers | flipper/wfr_nfc.c:211-224 | the length of a block from its octets |
| NfcOctets.BlockKindsInNumbers | flipper/wfr_nfc.c:205-231 | 00 is skipped, FE ends, 03 is a message, any other block is skipped whole |
| NfcOctets.WifiInText | flipper/wfr_nfc.c:92-121 | which records are Wi-Fi records |
| NfcOctets.MagicInNumbers | flipper/wfr_nfc.c:193-203 | five pages and 0xE1 on page 3 are needed; the data begins on page 4 |
| NfcOctets.HomeTagsRead | flipper/wfr_nfc.c:189-234 | two whole tags octet by octet, with short and long headers, and the credentials they give |
| NfcOctets.TagLeaves | flipper/wfr_nfc.c:131-133 | a tag that is not answered leaves the struct as it was or with what its last Wi-Fi record says |
| Session.NextKeeps | flipper/scenes/wi_fir_scene_transmit.c:62-283 | every step of threads, timer, keys and main thread keeps the session invariant |
| Session.Reachable | flipper/scenes/wi_fir_scene_transmit.c:62-283 | the invariant holds after every interleaving |
| Session.NeverBothLive | flipper/scenes/wi_fir_scene_transmit.c:62-147 | transmit thread and listener are never both live; worker and timer live and die together; nothing is live outside the scene |
| Session.ListenerStartsClean | flipper/scenes/wi_fir_scene_transmit.c:75-93 | when a finished send is about to be handled no listener handle is live |
| Session.RunIsolation | flipper/scenes/wi_fir_scene_transmit.c:215-257 | no report of one send is ever handled by the scene during a later one |
| Session.ShownTextIsOfThisSend | flipper/scenes/wi_fir_scene_transmit.c:40-45 | the address shown with "Connected" is the last one heard during this very send, never one left in the shared buffer by an earlier |
| Session.NeverStuck | flipper/scenes/wi_fir_scene_transmit.c:104-112 | in the scene there is always a thread at work, a report waiting, a live listener with its timeout running or reported, or a result on screen |
| Session.ReachableProgress | flipper/scenes/wi_fir_scene_transmit.c:104-283 | progress: from every state that can be reached, however the send turns out, the end of the thread, the timer and the handling of the queue alone lead to a result screen or out of the scene |
| Session.ConnectedIsNotFinal | flipper/scenes/wi_fir_scene_transmit.c:226-241 | "Connected" can be replaced by an acknowledgement already queued (a concrete run) |
| SessionOutcomes.ListenerNeedsSuccess | flipper/scenes/wi_fir_scene_transmit.c:164-193 | in the scene the listener is only ever up after a send that succeeded, with acknowledgements on |
| SessionOutcomes.FinishedSend | flipper/scenes/wi_fir_scene_transmit.c:164-193 | which way a finished send goes: listener with timer, failure with retry, or "sent" for 25 ticks, each exactly when |
| SessionOutcomes.ThreadReports | flipper/scenes/wi_fir_scene_transmit.c:104-112 | the result of the thread is recorded and reported when it ends |
| SessionOutcomes.ReportStands | flipper/scenes/wi_fir_scene_transmit.c:104-147 | and nothing but the start of another send changes it |
| SessionOutcomes.SendEnds | flipper/scenes/wi_fir_scene_transmit.c:104-193 | from a running send on: the screen that its result leads to |
| SessionOutcomes.SuccessHandled | flipper/scenes/wi_fir_scene_transmit.c:222-230 | a success shows "Connected" with its text for 60 ticks, without retry, listener down |
| SessionOutcomes.FailureHandled | flipper/scenes/wi_fir_scene_transmit.c:232-247 | a failure or timeout offers a retry without countdown, listener down |
| SessionOutcomes.WorkerPosts | flipper/scenes/wi_fir_scene_transmit.c:40-59 | what worker and timer post |
| SessionOutcomes.KeysPost | flipper/views/wfr_status_view.c:230-243 | keys post their own event on result screens and nothing elsewhere |
| SessionOutcomes.RightHandled | flipper/scenes/wi_fir_scene_transmit.c:255-257 | Right starts the next send where a retry is on offer, and does nothing elsewhere |
| SessionOutcomes.RightOnFailure | flipper/scenes/wi_fir_scene_transmit.c:151-162 | so Right on every failure screen starts the next send |
| SessionOutcomes.KeysLeave | flipper/scenes/wi_fir_scene_transmit.c:250-253 | Left and Ok leave the scene with nothing live |
| SessionOutcomes.BackLeaves | flipper/scenes/wi_fir_scene_transmit.c:268-272 | and so does Back |
| SessionOutcomes.ConfirmHandled | flipper/scenes/wi_fir_scene_transmit.c:208-213 | a confirmation opens the scene and starts a send |
| SessionOutcomes.OthersIgnored | flipper/scenes/wi_fir_scene_transmit.c:259-261 | other events are passed over |
| SessionOutcomes.CountdownLeaves | flipper/scenes/wi_fir_scene_transmit.c:263-267 | a countdown of n leaves the scene after exactly n ticks |
| SessionOutcomes.NoCountdownStays | flipper/scenes/wi_fir_scene_transmit.c:263-267 | and a screen without one stays |
| SessionOutcomes.ResultsGoAway | flipper/scenes/wi_fir_scene_transmit.c:164-230 | "Sent!" goes away after 25 ticks and "Connected" after 60 |
| SessionApp.WiFirApp.StartAckListener | flipper/scenes/wi_fir_scene_transmit.c:75-93 | clears the shared text and may only be called over dead handles |
| SessionApp.WiFirApp.StartTxThread | flipper/scenes/wi_fir_scene_transmit.c:124-147 | stops whatever is live, then starts a send |
| SessionApp.WiFirApp.TransmitFinished | flipper/scenes/wi_fir_scene_transmit.c:164-193 | joins the thread, then failure screen, listener or "sent" screen |
| SessionApp.WiFirApp.TxWorkerEnds | flipper/scenes/wi_fir_scene_transmit.c:104-112 | posts its report unless cancelled |
| SessionApp.WiFirApp.IrRxCallback | flipper/scenes/wi_fir_scene_transmit.c:40-51 | an acknowledgement heard while the worker is up leaves its text in the shared buffer and is posted |
| SessionApp.WiFirApp.AckTimeoutCallback | flipper/scenes/wi_fir_scene_transmit.c:55-59 | the armed timer posts once |
| SessionApp.WiFirApp.StatusInput | flipper/views/wfr_status_view.c:230-243 | keys are posted only on result screens |
| SessionApp.WiFirApp.OnCustomEvent | flipper/scenes/wi_fir_scene_transmit.c:215-262 | every event handler, field by field |
| SessionApp.WiFirApp.HandleNext | flipper/scenes/wi_fir_scene_transmit.c:215-275 | the main loop's turn: the invariant discharges every handler's demand, so no live handle is overwritten |
| SessionApp.WiFirApp.TickEvent | flipper/scenes/wi_fir_scene_transmit.c:263-267 | the dismiss countdown |

## Left out

- Sender.TransmitCredentials: the infrared protocol chosen and the pauses between frames are not part of it; frame times are part of the runs in `Transmission.SteadyPassDelivers`. A missing progress callback is one that always answers true.
- Shell.CommandRunsAsIntended: the reader knows blanks, backslash, single quotes and the one redirection ` 2>&1` at the end of a line; anything else unquoted makes it give up.
- NfcBuffers.ParseNdefMessage: demands that no record that is reached wraps, since otherwise it may not end; what one turn of the loop does on other messages is `NfcWidth.TurnOn`, where a read outside of the message is not followed further. The same demand comes with NextRecord, TryBlock, NextTlv, ParseArea and ParseWifiTag.
- Missing (NULL) arguments of the builder, the parsers and the sender.
- `wfr_crc32` (flipper/protocol/wfr_protocol.c:114): not declared in the header and never called.
- Reading and writing the infrared devices (daemon/wfr_lirc.c, daemon/wfr_evdev.c) and opening the transmit device.
- Running the command, the other network back ends, connectivity checks and the rollback (daemon/wfr_network.c, daemon/main.c:51-91).
- Saved networks and settings (flipper/wfr_storage.c), which depend on a library outside the repository.
- Drawing, menus, the other scenes, notifications, logging, packaging and installation.
- SessionApp.WiFirApp.StartTxThread: does not model the copy of the entered credentials into those that are sent.
- SessionApp.WiFirApp.StartAckListener: clearing the decoder is `AckDecoder.WfrAckDecoder.Reset`; here the worker is told what it hears.
- SessionApp.WiFirApp.TransmitFinished: does not model saving the credentials after a send.
- In the session: titles and badges of the result screens and the LED; other scenes appear only as "not in the transmit scene".
