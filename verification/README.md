# A verified model of the Espressif Zigbee and Thread SDK cores

This project models the stateful cores of the SDK in Dafny and proves what they promise.

* **The NCP serial link** (`Slip`, `Uart`, `Frame`, `Link`, `LinkLaws`, `Alignment`, `Responses`, `HostView`,
  `Progress`, `Device`, `StreamBuffers`). SLIP byte stuffing (RFC 1055, sections Protocol and SLIP Drivers), the frame of header, payload and
  checksum, the bus task that cuts the UART stream at END markers, the main task behind one event queue and two bounded
  stream buffers, and the dispatch table. The tasks form a state machine whose step is one action no other task can see
  the middle of. A write into a stream buffer takes two steps (look at the head, then commit), so that two writers that
  overlap would overwrite each other: that they do not is proved from the mutex, not assumed. `Device` holds the same
  code as methods over fields and stream buffers, and what they do is proved to be runs of that machine. `Responses`
  and `HostView` follow requests through the whole device, with any number of other senders: the responses the host
  reads are the answers to its requests, in order, and once the device is at rest they are all the answers. `Progress`
  proves that the device, whose main task both fills and drains the same buffer, always gets there.
* **The Zigbee console** (`Console`, `TableWalk`, `Parser`, `ArgTable`, `CliDispatch`). The hand-over of asynchronous
  results through a one-slot notification, the callback-driven walk through remote tables, the number, hex and address
  parsers with their 64-bit bounds, the argument collectors, and the descent into the command tree that rewrites
  `argv` and the line buffer.
* **Data structures** (`DiagSet`, `DiagHistory`, `HexCodec`, `OtaImage`). The diagnostic set as linked list of linked
  lists on the heap, from its first list to its end, the web server's hex codec, and the RCP update image from the
  generator to the device that reads it.

Code that changes state is written as classes and methods over fields, arrays and linked nodes, each proved against
a function of its inputs; the laws are lemmas about those functions. `dafny verify dfyconfig.toml` checks everything.

Where a promise does not hold for all inputs the code is modelled as it is, the exact condition is proved, and a
concrete case shows why the condition is there:

* `slip_encode`'s buffer of 2n bytes is too small when fewer than two data bytes are free of END and ESC
  (`Slip.EncodingComplete`, `Slip.RoundTripIff`, `Slip.OneEndByteIsLost`).
* `slip_decode` does not finish on inputs whose last token is a lone ESC or an escaped ESC (`Slip.TerminatesIff`); every
  chunk the bus task cuts is free of that (`Uart.ChunksHalt`).
* `output_buf` holds exactly the chunks that pending OUTPUT events announce if and only if no chunk was stored in part
  and no OUTPUT event was refused (`Alignment.AlignedIffIntact`). Once lost, that does not come back while the task runs
  (`Alignment.AlignmentNeverReturns`). Two runs lose it. Any target can fill the queue with sixty events while a
  handler runs (`Alignment.FullQueueMisaligns`). And the bus task is started before the event queue exists, so the first
  chunk can already be refused, and the next OUTPUT event then hands over bytes of two chunks, on which the decoder does
  not finish (`LinkLaws.StartupRaceMisaligns`); since the bus task has the lower priority (`priv/esp_ncp_bus.h`, line 33,
  and `priv/esp_ncp_main.h`, line 19), that takes a second core.
* `parse_u64` takes some decimals from 2^64 on for their value modulo 2^64. A string of digits is accepted if and only if
  every digit prefix, modulo 2^64, is at most the bound the loop tests; the answer is right if and only if the numeral
  is hex, no prefix lies in the four-wide window [2^64, 2^64+3], or some prefix fails that test
  (`Parser.ParseU64IsExactUnless`). The narrow parsers are right if and only if that holds or the value modulo 2^64 is
  beyond their range (`Parser.NarrowIsExactUnless`).
* The REPL waits for ever if and only if a result is notified while its task handle is unknown
  (`Console.LostIffUnheard`, `Console.UnknownHandleLosesResult`). `esp_zb_console_init` finds the handle or returns an
  error (`esp_zigbee_console.c`, lines 168-170), so that takes a program that ignores the error and starts the console.
* A table walk against a peer that answers the index it is asked for stays open for ever if and only if from some reply
  on all replies are empty pages below their total (`TableWalk.OpenForEverIff`, `TableWalk.EmptyPagesNeverEnd`).
* The update image is only consistent with its own table when `flash_args` names three files
  (`OtaImage.TilesIffThreeLines`).

The console's hand-over also relies on a request notifying once, from its last callback. Each callback in the console's
files notifies at most once per call, in the call that ends its request; that the Zigbee stack, which is not part of
this repository, makes no further call after that is a hypothesis, and `Console.SecondNotificationLeaks` shows what it
keeps out.

Notes on the reading of the source:

* `char` is unsigned, as on the targets; the 16-bit lengths, the 8-bit start index and the 64-bit wrap-around are
  written out.
* `esp_crc16_le`, the Zigbee handlers, the device-name lookup, `esp_random`, Python's `int(text, 0)` and the replies of
  a remote node are parameters, so every law holds for any of them. On runs of the whole device a handler may do
  something else for each chunk, so handlers that read and change the state of the network are covered. The `esp_err_t` values are ESP-IDF's, whose header is
  not part of this repository.
* A comment in `cmdline_parser.c` (line 107) announces the prefixes `0x` and `0X` for hex strings; the code (line 108)
  compares with a lower-case `x` twice, and the model follows the code.
* The scan of the function table runs one slot past its end (`esp_ncp_zb.c`, line 1746). That slot is modelled as an
  arbitrary entry `beyond`.

## Model

| member | source | states |
|---|---|---|
| Slip.SlipEncode | components/esp-zigbee-ncp/src/slip.c:19-78 | through a buffer of 2n bytes that drops what does not fit, exactly the first min(2n, n+k+2) bytes of END, escaped data, END come out, k being the number of END and ESC bytes; no buffer when that length is 0 modulo 2^16 |
| Slip.EncodingComplete | components/esp-zigbee-ncp/src/slip.c:24-73 | the packet is complete if and only if k + 2 <= n and its length fits sixteen bits |
| Slip.EscapedAt | components/esp-zigbee-ncp/src/slip.c:25-67 | the bytes that stand for each data byte, at their place in the packet: 0xDB 0xDC for 0xC0, 0xDB 0xDD for 0xDB, the byte itself otherwise, between two 0xC0 |
| Slip.HaltingTurn | components/esp-zigbee-ncp/src/slip.c:93-146 | one turn of the decoder's loop keeps stored bytes plus decoding of the unread rest, shortens the rest, and never leaves the stale `c` at ESC with nothing unread, provided the guard held before |
| Slip.SlipDecode | components/esp-zigbee-ncp/src/slip.c:84-154 | terminates under the guard, stores fewer bytes than it was given, and stores the decoding of the input with zeros behind it |
| Slip.TerminatesIff | components/esp-zigbee-ncp/src/slip.c:93-146 | the loop finishes if and only if the input passes the guard, a walk over its tokens, and it then stores the decoding within n+1 turns |
| Slip.HangsOnlyOnEscapes | components/esp-zigbee-ncp/src/slip.c:93-146 | an input that fails the guard ends in ESC or ESC_ESC; so an input that ends in END never does, swallowed by an escape or not |
| Slip.StuckOnEscape | components/esp-zigbee-ncp/src/slip.c:116-135 | with the buffer empty and `c` left at ESC, every further turn stores one more byte and none ends the loop |
| Slip.EndsVanish | components/esp-zigbee-ncp/src/slip.c:99-110 | any number of END markers in front of an input changes neither what is decoded nor whether the decoder finishes |
| Slip.SpareEscape | components/esp-zigbee-ncp/src/slip.c:116-135 | an escape in front of a byte that is no escape code vanishes and the byte is kept |
| Slip.InteriorEndsTransparent | components/esp-zigbee-ncp/src/slip.c:93-146 | complete packets in a row, each led by any number of extra END markers, decode to the concatenation of their data |
| Slip.CutPacket | components/esp-zigbee-ncp/src/slip.c:25-67 | an encoding whose buffer filled up before the closing END still decodes to its data exactly when it lost that END only and the last data byte is END |
| Slip.RoundTripIff | components/esp-zigbee-ncp/src/slip.c:19-154 | decode(encode(d)) = d for exactly the d whose encoding is complete, the empty d, and the one family where the lost closing END does no harm |
| Slip.OneEndByteIsLost | components/esp-zigbee-ncp/src/slip.c:25-73 | the single data byte END is encoded as END ESC, on which the decoder does not finish |
| Uart.Receiver.PopChunk | components/esp-zigbee-ncp/src/esp_ncp_bus.c:97-110 | popping positions until one is above 0 yields the first cut of the received bytes, or nothing exactly when there is no cut; position 0 is skipped unread and the position queue stays in step with the buffer |
| Uart.CutsPartition | components/esp-zigbee-ncp/src/esp_ncp_bus.c:99-109 | cutting loses no byte: chunks and rest put together are the stream, every chunk ends with its only END behind position 0, and no cut is left in the rest |
| Uart.ChunksHalt | components/esp-zigbee-ncp/src/esp_ncp_bus.c:102-105 | the decoder finishes on every chunk the bus task cuts |
| Uart.CutsOfWire | components/esp-zigbee-ncp/src/esp_ncp_bus.c:99-109 | complete packets on the wire are cut into exactly those packets with nothing left over |
| Uart.Resynchronises | components/esp-zigbee-ncp/src/slip.c:21-26 | whatever noise came before, every packet behind it is recovered by cutting and decoding; left-over noise costs one extra chunk |
| Frame.HeaderRoundTrip | components/esp-zigbee-ncp/src/priv/esp_ncp_frame.h:19-28 | the packed header is a bijection between its fields and seven bytes |
| Frame.HeaderLayout | components/esp-zigbee-ncp/src/priv/esp_ncp_frame.h:19-28 | which byte holds which header field: two nibbles, reserved, id, serial number, length |
| Frame.FrameLayout | components/esp-zigbee-ncp/src/esp_ncp_frame.c:96-120 | a frame is header, payload, and the checksum of both, low byte first, and nothing else is |
| Frame.ExamineFrame | components/esp-zigbee-ncp/src/esp_ncp_frame.c:43-75 | the receive checks accept every frame the send path builds, with its own header and payload, for any checksum function |
| Frame.AcceptedIffBuilt | components/esp-zigbee-ncp/src/esp_ncp_frame.c:43-75 | a packet of the size its header announces is accepted if and only if it is the frame of its own header and payload; any other is refused for its checksum |
| Frame.ExaminedAnySize | components/esp-zigbee-ncp/src/esp_ncp_frame.c:43-75 | for every packet: refused for its size exactly when shorter than header and payload, and otherwise accepted exactly when the word behind the payload is the checksum, bytes behind the packet being zero |
| Frame.PlainFramesFit | components/esp-zigbee-ncp/src/esp_ncp_frame.c:96-120 | a frame of type below 12 without reserved bits always survives the encoder's buffer, whatever its payload |
| Frame.FrameLayer.FrameInput | components/esp-zigbee-ncp/src/esp_ncp_frame.c:91-131 | exactly one buffer goes to the bus: the encoding of header, payload and checksum; without a buffer the call fails, otherwise it returns what the bus returns |
| Frame.FrameLayer.RespInput | components/esp-zigbee-ncp/src/esp_ncp_frame.c:133-146 | a response echoes id, serial number and version of the request, or carries id 0xFFFF and a random serial number when there is none |
| Frame.FrameLayer.NotiInput | components/esp-zigbee-ncp/src/esp_ncp_frame.c:148-161 | a notification carries the source's id, serial number and version and type 2, and the call returns what the bus returns for it |
| Frame.FrameLayer.Validate | components/esp-zigbee-ncp/src/esp_ncp_frame.c:43-75 | on the decoder's zero-filled buffer the length and checksum tests give the verdict that the decoded bytes alone determine |
| Frame.FrameLayer.ZbOutput | components/esp-zigbee-ncp/src/esp_ncp_zb.c:1740-1768 | the scan serves the first slot of the id; it fails exactly for a missing or failing handler, sends nothing then and returns the code of the error reply; on success one echo is sent |
| Frame.FrameLayer.FrameOutput | components/esp-zigbee-ncp/src/esp_ncp_frame.c:23-89 | per chunk exactly the answer the chunk calls for is sent; for an error reply the call returns what the bus returns, otherwise success |
| Frame.OneResponse | components/esp-zigbee-ncp/src/esp_ncp_frame.c:23-89 | one type-1 response per chunk: with id 0xFFFF and the code of the failure as its one byte exactly for a bad frame, a missing handler or a failing one; with the request's id, serial number and version and the handler's output when it succeeds; none exactly for a valid frame whose id no slot carries |
| Frame.ServedByFirstSlot | components/esp-zigbee-ncp/src/esp_ncp_zb.c:1746-1760 | the first slot of the id decides: code 2 for a missing handler, the low byte of the handler's error, or an echo of version, id and serial number with its output |
| Frame.RefusedChunk | components/esp-zigbee-ncp/src/esp_ncp_frame.c:23-89 | a missing chunk is answered with code 2, a short packet with 4, a bad checksum with 9 |
| Frame.SentReadsBack | components/esp-zigbee-ncp/src/esp_ncp_frame.c:91-131 | what is handed to the bus for an answer that fits is one packet, on which the decoder finishes and which reads back as that header and payload |
| Frame.AnswerOnTheBus | components/esp-zigbee-ncp/src/esp_ncp_frame.c:23-161 | from the chunk to the bytes on the bus: error reply, echo with the request's serial number, or nothing, as they read back |
| Frame.LookupFindsFirst | components/esp-zigbee-ncp/src/esp_ncp_zb.c:1746-1760 | the lookup fails exactly when no slot has the id, and otherwise returns the first slot that has it |
| Frame.RequestResponse | components/esp-zigbee-ncp/src/esp_ncp_frame.c:23-146 | a host's encoded request reaches the handler unchanged, and the reply put on the wire is complete and reads back as the header and payload answered |
| Frame.ShippedTable | components/esp-zigbee-ncp/src/esp_ncp_zb.c:1679-1738 | which declared frame ids the shipped table serves, refuses for lack of a handler, and does not carry at all |
| Link.CallerMoves | components/esp-zigbee-ncp/src/esp_ncp_bus.c:140-159 | a step of one caller keeps the mutex exclusive, the buffer within bounds and contiguous, and promises no more bytes than it stored |
| Link.ReceiveInput | components/esp-zigbee-ncp/src/esp_ncp_main.c:65-73 | an INPUT event finds all the bytes it announces and they are the next unread ones |
| Link.ReceiveDelivers | components/esp-zigbee-ncp/src/esp_ncp_main.c:74-81 | an OUTPUT event receives exactly the oldest chunk not yet delivered |
| Link.StepInv | components/esp-zigbee-ncp/src/esp_ncp_main.c:93-118 | every step of every task keeps the invariant of both directions |
| Link.ReachableInv | components/esp-zigbee-ncp/src/esp_ncp_main.c:93-118 | the invariant holds in every state reachable with any number of callers |
| LinkLaws.UartIsPrefixOfWrites | components/esp-zigbee-ncp/src/esp_ncp_bus.c:140-159 | on every interleaving and whichever posts fail, pending INPUT sizes never exceed the buffered bytes and the UART has been given a prefix of the stream writes in mutex order |
| LinkLaws.InputEventsAreFull | components/esp-zigbee-ncp/src/esp_ncp_main.c:66-71 | every INPUT event receives its full size |
| LinkLaws.MutualExclusion | components/esp-zigbee-ncp/src/esp_ncp_bus.c:151-153 | two callers are never between taking and giving the mutex together |
| LinkLaws.PacketsReachHost | components/esp-zigbee-ncp/src/esp_ncp_bus.c:140-159 | on every run, when the buffers written are complete packets, what the UART has been given cuts and decodes to those packets, in the order of the mutex |
| LinkLaws.OneChunkPerOutputEvent | components/esp-zigbee-ncp/src/esp_ncp_bus.c:97-109 | when no stream send was partial and no OUTPUT post refused, output_buf is the pending chunks in queue order, INPUT events interleaved or not, and an OUTPUT event hands over exactly the next one, on which the decoder finishes |
| Alignment.StepKeepsMark | components/esp-zigbee-ncp/src/esp_ncp_bus.c:97-109 | every step of every task keeps the mark a loss leaves: an announcement too few, or fewer bytes buffered than announced |
| Alignment.AlignedIffIntact | components/esp-zigbee-ncp/src/esp_ncp_bus.c:97-109 | in every reachable state before the task's end: buffer and announcements belong together if and only if no chunk was stored in part and no OUTPUT event was refused |
| Alignment.AlignmentNeverReturns | components/esp-zigbee-ncp/src/esp_ncp_main.c:74-81 | a state in which they do not is followed by no aligned one while the task runs |
| LinkLaws.PacketsArriveInOrder | components/esp-zigbee-ncp/src/esp_ncp_bus.c:97-109 | on every such run, once the chunks that line noise costs are through, the i-th chunk delivered decodes to the i-th packet sent |
| LinkLaws.LinkRoundTrip | components/esp-zigbee-ncp/src/esp_ncp_frame.c:91-131 | encoding, concatenating, cutting, decoding and checking is the identity on every list of frames that fit, for any checksum function |
| LinkLaws.RequestsAreServedInOrder | components/esp-zigbee-ncp/src/esp_ncp_frame.c:23-89 | on every run that lost nothing, with packets of at most 1024 bytes, the chunks handled so far are the host's frames in order, and each is answered for what it asked |
| LinkLaws.StartupRaceMisaligns | components/esp-zigbee-ncp/src/esp_ncp_main.c:98-100 | a run, for two cores, on which a chunk arrives before the queue exists; the next OUTPUT event hands over bytes of two chunks, on which the decoder does not finish |
| Alignment.FullQueueMisaligns | components/esp-zigbee-ncp/src/esp_ncp_main.c:31-45 | a run on which the queue fills with sixty events while the main task is inside a handler, the next chunk is stored but not announced, and alignment is gone |
| Responses.StepKeepsSending | components/esp-zigbee-ncp/src/esp_ncp_bus.c:123-161 | every step keeps the account of the main task's writes: what it wrote and what it carries is what it began to send, unless a call was refused |
| Responses.ReplyIsOutgoing | components/esp-zigbee-ncp/src/esp_ncp_frame.c:91-131 | the buffers the runs of the device send for a chunk are those the frame layer hands to the bus |
| Responses.AnswersInOrder | components/esp-zigbee-ncp/src/esp_ncp_main.c:74-81 | with any number of other senders, while no call of the main task is refused, its writes are the answers to the chunks delivered, in order, at most the last one missing, and none whenever it is not handling a chunk |
| HostView.RepliesAreAnswers | components/esp-zigbee-ncp/src/esp_ncp_frame.c:91-146 | the buffers sent for chunks that carry requests are the complete packets of the requests' answers |
| Responses.StepKeepsAnnounced | components/esp-zigbee-ncp/src/esp_ncp_bus.c:151-160 | while nothing was written in part and no INPUT event refused, every step keeps the announced bytes equal to the buffered ones |
| Responses.NothingStaysBehind | components/esp-zigbee-ncp/src/esp_ncp_bus.c:123-161 | on such a run, with the queue empty and nobody sending, the UART has been given every byte that was written |
| HostView.HostReadsAnswers | components/esp-zigbee-ncp/src/esp_ncp_frame.c:23-89 | at any moment of a run that loses nothing and refuses no answer, with any number of others sending notifications, the type-1 packets the host has read are the answers to its requests, in order, each with its own header and payload |
| HostView.EveryRequestIsAnswered | components/esp-zigbee-ncp/src/esp_ncp_main.c:74-81 | once such a run is at rest, with all requests on the line and no INPUT event refused, every request was handled and the type-1 packets the host has read are all the answers, nothing more and nothing less |
| Progress.NeverStuck | components/esp-zigbee-ncp/src/esp_ncp_bus.c:140-153 | no deadlock: in every state of a run some task can go on unless the device is quiet, although the main task may wait for room in the buffer only it empties, and for a mutex |
| Progress.OwnStepWorks | components/esp-zigbee-ncp/src/esp_ncp_bus.c:97-161 | every step the device makes by itself leaves less of a fixed amount of work |
| Progress.OwnRunsAreBounded | components/esp-zigbee-ncp/src/esp_ncp_main.c:102-115 | however its tasks take turns, the device left to itself makes no more steps than that amount |
| Progress.QuietIffNoStep | components/esp-zigbee-ncp/src/esp_ncp_main.c:102-115 | no task can go on if and only if all callers are idle, no chunk is left to cut and the main task waits for an event or has ended |
| Progress.ComesToRest | components/esp-zigbee-ncp/src/esp_ncp_main.c:102-115 | from every state of a run the device's own steps lead to rest |
| Progress.AnsweredInTheEnd | components/esp-zigbee-ncp/src/esp_ncp_frame.c:23-89 | whatever the order of the tasks, a run that goes on until no task can, and lost nothing, leaves the host with all the answers to its requests |
| Device.NcpDevice.SendEvent | components/esp-zigbee-ncp/src/esp_ncp_main.c:31-45 | the event is appended exactly when the device runs and the queue exists and has room; otherwise nothing changes and the call fails |
| Device.NcpDevice.ProcessEvent | components/esp-zigbee-ncp/src/esp_ncp_main.c:47-91 | the first `size` bytes leave the right buffer; a short receive discards them without error, a full one goes to the UART or to the frame layer, whose reply is stored and announced, stored only or lost |
| Device.NcpDevice.MainTurn | components/esp-zigbee-ncp/src/esp_ncp_main.c:102-115 | one turn takes the oldest event; with room for it the reply is in input_buf and announced behind the other events; any failure ends the loop and deletes the queue with whatever it holds |
| Device.OutputProcessed | components/esp-zigbee-ncp/src/esp_ncp_main.c:74-81 | an OUTPUT event received in full: the chunk is handled, its reply stored and announced, stored only, or lost, by room in buffer and queue, and the result counts for an error reply only |
| Device.InputProcessed | components/esp-zigbee-ncp/src/esp_ncp_main.c:65-73 | an INPUT event received in full: the bytes leave input_buf, those the driver takes go to the UART, and fewer than all is an error |
| Device.ShortProcessed | components/esp-zigbee-ncp/src/esp_ncp_main.c:65-81 | an event that announces more than there is empties its buffer and is no error |
| Device.TurnConcludes | components/esp-zigbee-ncp/src/esp_ncp_main.c:102-115 | a failing turn ends the task and deletes the queue; a good one changes no more than the event did |
| Device.NcpDevice.BusInput | components/esp-zigbee-ncp/src/esp_ncp_bus.c:123-161 | what fits is stored; success means stored in full and announced; a failing call announces nothing but may have stored bytes |
| Device.CallSimulates | components/esp-zigbee-ncp/src/esp_ncp_bus.c:123-161 | what an undisturbed call of esp_ncp_bus_input does to the device is a run of the state machine, so every law about reachable states holds after it |
| Device.TurnSimulates | components/esp-zigbee-ncp/src/esp_ncp_main.c:102-115 | what a turn of the main loop does, the reply it writes included, is a run of the state machine that ends listening or stopped as the result says |
| Device.InputTurn | components/esp-zigbee-ncp/src/esp_ncp_main.c:65-73 | in a reachable state the short-receive branch of an INPUT event cannot be taken |
| Device.AwaitSpace | components/esp-zigbee-ncp/src/esp_ncp_bus.c:140-149 | the wait succeeds exactly when one of the first five looks finds room |
| Device.PollsAsAwaited | components/esp-zigbee-ncp/src/esp_ncp_bus.c:140-149 | a caller of the state machine waits the same way, whatever the others do between its looks |
| Console.StepInv | components/esp-zigbee-console/src/esp_zigbee_console.c:76-120 | every step in which no notification goes unheard keeps: the slot is empty or holds the outstanding command's own result, and that result is in the slot or still to come |
| Console.LostIffUnheard | components/esp-zigbee-console/src/esp_zigbee_console.c:76-120 | on every interleaving, the task handle known or not: the REPL waits, or is about to, for a notification nobody will send, and does so for ever, if and only if some result was notified while the handle was unknown; otherwise every result is handed over |
| Console.LostForEver | components/esp-zigbee-console/src/esp_zigbee_console.c:81-84 | a REPL that waits with the slot empty and no request open waits on every continuation |
| Console.ResultsAreHandedOver | components/esp-zigbee-console/src/esp_zigbee_console.c:168-170 | after a set-up that found the handle each command returns once, in order, with its own result; none is lost when notify precedes wait; a full slot belongs to a deferred command about to take it |
| Console.SecondNotificationLeaks | components/esp-zigbee-console/src/esp_zigbee_console.c:91-99 | why a request must notify once: with a second notification the overwriting slot makes the next command return a result that is not its own |
| Console.UnknownHandleLosesResult | components/esp-zigbee-console/src/esp_zigbee_console.c:78-93 | when the task handle is only learned at the first wait, a callback that comes earlier is lost and the REPL is stuck |
| TableWalk.TableRequest.TableCallback | components/esp-zigbee-console/src/cli_cmd_zdo.c:146-168 | one reply prints its entries and either asks for the next page with the same request or notifies and frees, on an error reply too |
| TableWalk.OnePage | components/esp-zigbee-console/src/cli_cmd_zdo.c:198-220 | a reply that starts at the index asked for keeps "indices 0..start-1 printed once each, in order" and raises the start index unless it is empty, or finishes with one notification and one free |
| TableWalk.WalkIsBounded | components/esp-zigbee-console/src/cli_cmd_zdo.c:156-161 | at most 254 replies that leave the walk open are not empty ones, however many empty ones come between |
| TableWalk.OpenForEverIff | components/esp-zigbee-console/src/cli_cmd_zdo.c:156-161 | against a peer that answers the index asked for the walk stays open for ever if and only if from some reply on, the walk still open, all are empty pages below their total |
| TableWalk.TableIsWalkedOnce | components/esp-zigbee-console/src/cli_cmd_zdo.c:146-220 | otherwise it ends, an error midway included, within 255 replies besides the empty ones, notifies once and frees once, and when it ends well on a page that does not overshoot the table, 0..total-1 were printed once each in order |
| TableWalk.EmptyPagesNeverEnd | components/esp-zigbee-console/src/cli_cmd_zdo.c:156-161 | empty pages while entries are left are asked for again without end, nothing is printed and nothing notified |
| Parser.ParseU64 | components/esp-zigbee-console/src/cmdline_parser.c:39-71 | the loop computes the parser's function on every string, the missing one included |
| Parser.DigitIsPlace | components/esp-zigbee-console/src/cmdline_parser.c:16-37 | a digit's value is its place in the alphabet, either case for hex, and nothing else is a digit |
| Parser.PrefixChoosesBase | components/esp-zigbee-console/src/cmdline_parser.c:52-55 | "0x" and "0X" announce hex digits, anything else decimal ones |
| Parser.MalformedIsRefused | components/esp-zigbee-console/src/cmdline_parser.c:57-63 | a string that is no numeral is refused as bad format, unless the digits in front of the bad character already overflow |
| Parser.FromAccepts | components/esp-zigbee-console/src/cmdline_parser.c:57-66 | a numeral below 2^64 is accepted with its exact value |
| Parser.MissedOverflow | components/esp-zigbee-console/src/cmdline_parser.c:62-64 | an overflow the test misses is decimal, and some leading digits denote a value in [2^64, 2^64+3] |
| Parser.ParseU64IsExactUnless | components/esp-zigbee-console/src/cmdline_parser.c:39-71 | on every string: malformed ones are refused, with which code; digits are accepted if and only if every prefix passes the overflow test modulo 2^64, with the numeral modulo 2^64; and the answer is right (the numeral, or a size error from 2^64 on) if and only if the numeral is hex, no prefix lies in that window, or some prefix fails the test |
| Parser.TwoTo64ParsesAsZero | components/esp-zigbee-console/src/cmdline_parser.c:62-64 | the decimal 18446744073709551616 parses as 0 |
| Parser.ParseNarrow | components/esp-zigbee-console/src/cmdline_parser.c:73-98 | the narrow parsers return parse_u64's value or error, or refuse it as too large |
| Parser.NarrowIsExactUnless | components/esp-zigbee-console/src/cmdline_parser.c:73-98 | malformed strings get the code parse_u64 gives; otherwise u8, u16 and u32 answer right (a numeral in range with its value, a size error beyond) if and only if the same condition holds or the numeral modulo 2^64 is beyond the range |
| Parser.PairsOfDigits | components/esp-zigbee-console/src/cmdline_parser.c:115-125 | the leading digit pairs cover the string exactly when the rest is hex digits of even number |
| Parser.ParseHexStr | components/esp-zigbee-console/src/cmdline_parser.c:100-136 | every error branch, the reported size, and the buffer: the leading pairs as far as they fit, zeros behind up to the given size, the rest untouched |
| Parser.ParseIeeeAddr | components/esp-zigbee-console/src/cmdline_parser.c:138-152 | exactly eight bytes are accepted and stored reversed; otherwise nothing is written, with a size error for another number of bytes and bad format for the rest |
| Parser.ZclAddr.Parse | components/esp-zigbee-console/src/cmdline_parser.c:154-169 | IEEE when the string is an IEEE address, else SHORT exactly when parse_u16 accepts, the other bytes untouched; else nothing is written |
| Parser.AddressesAgree | components/esp-zigbee-console/src/cmdline_parser.c:100-169 | IEEE means "0x" and exactly sixteen hex digits, and then the stored bytes read least significant first are the number parse_u64 reads |
| ArgTable.ArgValues.Scan | components/esp-zigbee-console/src/argtable_ext.c:64-81 | a scan refuses when full, counts a value-less option, stores the parsed value in the next slot or returns the parser's code and changes nothing |
| ArgTable.AcceptedAt | components/esp-zigbee-console/src/argtable_ext.c:64-81 | where each argument ends up: an accepted one behind those accepted before it, with its parsed value; a refused one nowhere |
| ArgTable.ArgValues.ScanAll | components/esp-zigbee-console/src/argtable_ext.c:115-183 | over any sequence of scans the first `count` slots hold the accepted arguments in order, as many as fit |
| ArgTable.ScanDeviceId | components/esp-zigbee-console/src/argtable_ext.c:290-305 | a number is stored as it is, a known name that starts with no digit as its device's id, anything else refused with the parser's code |
| ArgTable.ScanAllDeviceIds | components/esp-zigbee-console/src/argtable_ext.c:290-305 | over any sequence of scans with the name lookup the slots hold the accepted numbers and device names in order, as many as fit |
| ArgTable.DeviceIdMeans | components/esp-zigbee-console/src/argtable_ext.c:290-305 | a device name is looked up exactly for what is no number; a number of sixteen bits is itself, a larger one is refused even if it is a name |
| ArgTable.BufferLengthIsExact | components/esp-zigbee-console/src/argtable_ext.c:226-231 | the size computed from strlen is the decoded length of every well-formed string and never too short for any string |
| ArgTable.AcceptsHexIff | components/esp-zigbee-console/src/argtable_ext.c:226-231 | a hex argument is accepted if and only if it is "0x" and one to 65534 pairs of hex digits |
| ArgTable.AcceptedHexAt | components/esp-zigbee-console/src/argtable_ext.c:217-246 | where each hex argument ends up among the accepted ones |
| ArgTable.ArgHex.Scan | components/esp-zigbee-console/src/argtable_ext.c:217-246 | a string is accepted exactly when well formed and not too long; its bytes and their number go into the next slot in a buffer of their own |
| ArgTable.ArgHex.ScanAll | components/esp-zigbee-console/src/argtable_ext.c:217-246 | over any sequence of scans the slots hold the decoded bytes of the accepted strings in order, in different live buffers |
| ArgTable.ArgHex.FreeAll | components/esp-zigbee-console/src/argtable_ext.c:281-288 | every buffer still owned is released once |
| CliDispatch.DescendStops | components/esp-zigbee-console/src/cli_cmd.c:29-41 | the walk down the tree ends at a command that the next token does not extend, or in front of an option |
| CliDispatch.DescendFollows | components/esp-zigbee-console/src/cli_cmd.c:29-41 | the tokens walked lead from the command to the one selected, each to the first sub-command of its name and none an option, and the next token is an option or leads no further |
| CliDispatch.StrEndsAtNul | components/esp-zigbee-console/src/cli_cmd.c:31-33 | the string at a pointer is what lies in front of the next NUL |
| CliDispatch.BlankedAt | components/esp-zigbee-console/src/cli_cmd.c:34-36 | after k levels exactly the characters in front of the consumed words are blanks, all others as before |
| CliDispatch.FindChild | components/esp-zigbee-console/src/cli_cmd.c:31-33 | the loop finds the first sub-command whose name is the C string at the pointer |
| CliDispatch.StepDown | components/esp-zigbee-console/src/cli_cmd.c:34-36 | the two writes blank the character in front of the word and hand its slot to the program name, nothing else |
| CliDispatch.ProcessCmd | components/esp-zigbee-console/src/cli_cmd.c:25-51 | dispatch in place is the pure walk: after k levels the operation sees the original argv[0] pointer followed by argv[k+1..], the consumed slots all hold that pointer, and of the line buffer only the k blanks changed |
| CliDispatch.ProgramNameIsPath | components/esp-zigbee-console/src/cli_cmd.c:34-36 | with words back to back the program name reads as the path joined by blanks |
| DiagSet.UpdateIsMapUpdate | components/esp_ot_br_server/src/esp_br_web_base.c:466-500 | an update keeps keys distinct, maps the key to the new list, and keeps every other entry and the order |
| DiagSet.FindUpdated | components/esp_ot_br_server/src/esp_br_web_base.c:472-476 | after an update the key finds the new list and every other key what it found before |
| DiagSet.LastUpdateWins | components/esp_ot_br_server/src/esp_br_web_base.c:466-500 | after any sequence of updates keys are distinct, each finds the last list given for it, and the entries there before keep their places |
| DiagSet.SearchSet | components/esp_ot_br_server/src/esp_br_web_base.c:472-476 | the search returns the first node of that key, or null when there is none |
| DiagSet.AppendTlv | components/esp_ot_br_server/src/esp_br_web_base.c:394-417 | the record goes behind the last node in fresh memory; without a list the call is refused |
| DiagSet.DestroyList | components/esp_ot_br_server/src/esp_br_web_base.c:419-434 | every node and record of a list is freed once |
| DiagSet.UpdateSet | components/esp_ot_br_server/src/esp_br_web_base.c:466-500 | the linked set refines the map update; only the replaced list is freed, once; a key not yet there gets a fresh node behind the last |
| DiagSet.DestroySet | components/esp_ot_br_server/src/esp_br_web_base.c:502-520 | every set node, list node and record is freed exactly once |
| DiagHistory.UpdateOne | components/esp_ot_br_server/src/esp_br_web_base.c:466-500 | an update leaves lists outside the set as they stand: those replaced earlier stay freed once, those still to come stay live |
| DiagHistory.UpdateAll | components/esp_ot_br_server/src/esp_br_web_base.c:466-500 | over any sequence of updates with fresh lists the rows are those of the pure map, and every list not held any more has been freed exactly once |
| DiagHistory.WholeLife | components/esp_ot_br_server/src/esp_br_web_base.c:466-520 | after any sequence of updates and the end of the set, the rows before the end were those of the pure map, every list ever given and every set node, those the updates added included, has been freed exactly once |
| HexCodec.HexToString | components/esp_ot_br_server/src/esp_br_web_base.c:31-50 | the array holds the lower-case text and a NUL, bytes behind it untouched; a null input is refused |
| HexCodec.StringToHex | components/esp_ot_br_server/src/esp_br_web_base.c:52-77 | accepted exactly for 2n hex digits; a failure leaves the good pairs, half of the bad one and the rest as it was |
| HexCodec.PartialAt | components/esp_ot_br_server/src/esp_br_web_base.c:52-77 | what a failure leaves, byte by byte: the good pairs, sixteen times the good high digit or zero, the rest untouched |
| HexCodec.BytesOfText | components/esp_ot_br_server/src/esp_br_web_base.c:31-77 | string_to_hex(hex_to_string(b)) = b for every byte sequence |
| HexCodec.TextOfBytes | components/esp_ot_br_server/src/esp_br_web_base.c:31-77 | hex_to_string(string_to_hex(s)) = s in lower case for every accepted s |
| HexCodec.AcceptedIffEncoded | components/esp_ot_br_server/src/esp_br_web_base.c:52-77 | the accepted texts are, up to case, exactly the ones the encoder writes |
| HexCodec.ConsoleReadsText | components/esp-zigbee-console/src/cmdline_parser.c:100-136 | the web server's hex text behind "0x" is read back as the same bytes by the console's hex parser |
| OtaImage.AppendSubfileHeader | components/esp_rcp_update/create_ota_image.py:23-25 | one packed entry is appended and the offset behind the subfile returned, or nothing when a value does not fit 32 bits |
| OtaImage.EntryLayout | components/esp_rcp_update/create_ota_image.py:23-25 | an entry is tag, size and offset, in that order, as little-endian words, and is read from there |
| OtaImage.AppendSubfile | components/esp_rcp_update/create_ota_image.py:28-34 | the copy in 4096-byte blocks appends the file byte for byte |
| OtaImage.AppendFlashArgs | components/esp_rcp_update/create_ota_image.py:37-49 | succeeds exactly on a file with a first line whose other lines are well formed, and appends tag and address of each |
| OtaImage.ContainsIff | components/esp_rcp_update/create_ota_image.py:44-47 | the search for a word finds it exactly when the name is some text, the word and some text |
| OtaImage.CreateImage | components/esp_rcp_update/create_ota_image.py:52-90 | succeeds exactly when every size and offset fits and flash_args is well formed; the image is the table followed by the subfiles, with or without the optional one |
| OtaImage.BuildableIff | components/esp_rcp_update/create_ota_image.py:63-82 | a build succeeds if and only if flash_args is well formed and the last entry's offset and size fit 32 bits |
| OtaImage.ImageLayout | components/esp_rcp_update/create_ota_image.py:63-90 | the image is the table, version, flash arguments, bootloader, partition table, firmware and the optional subfile, in that order |
| OtaImage.EntriesSay | components/esp_rcp_update/create_ota_image.py:63-82 | tag, size and offset of each of the six or seven entries, as numbers |
| OtaImage.TilesIffThreeLines | components/esp_rcp_update/create_ota_image.py:63-82 | the entries tile the image from 0 to its length without gap or overlap if and only if flash_args names three files |
| OtaImage.SubfileAt | components/esp_rcp_update/create_ota_image.py:63-90 | each subfile lies at its entry's offset, those behind the flash arguments moved by eight bytes per line more or less than three |
| OtaImage.SeekToSubfile | components/esp_rcp_update/src/esp_rcp_update.c:66-90 | the search reads the table entry by entry, reports a damaged header, a short file or a missing tag, and leaves the position at the subfile found |
| OtaImage.SeekMeans | components/esp_rcp_update/src/esp_rcp_update.c:66-90 | on any file: the first entry of the tag; a failure exactly for a damaged header or a file that ends before it; not found exactly when the whole table was read |
| OtaImage.SeekReadsSubfile | components/esp_rcp_update/src/esp_rcp_update.c:66-90 | in every image the generator builds from three flash arguments the device finds every subfile byte for byte, and no other tag |
| OtaImage.EachTagReads | components/esp_rcp_update/src/esp_rcp_update.c:66-90 | which content each of the six tags reads back |
| OtaImage.FlashedAsBuilt | components/esp_rcp_update/src/esp_rcp_update.c:255-278 | each flash_args line ends up as the file it names, byte for byte, at its address |
| OtaImage.NamedFilesAreFlashed | components/esp_rcp_update/create_ota_image.py:37-49 | each flash_args line puts the bootloader, the partition table or the firmware, by the words in its path, at its address |

## Left out

- UART driver internals, FreeRTOS scheduling, interrupt paths and allocation failure: queues and buffers are abstract and malloc succeeds; a stream buffer of any size, zero included, can be created.
- The individual Zigbee handlers and (de)serialisers, the signal handlers, the HTTP server, JSON, Wi-Fi and the border router's launch: they forward to libraries that are not part of the repository.
- `keep_diagnosticTlv_node_live`: depends on the wall clock and is called from nowhere in the modelled files.
- The download of an update image by the device, the version checks and the other copies of `create_ota_image.py`.
- A second start of the NCP's main task, and chunks longer than the bus task's 1024-byte buffer, which the source copies without a check; the machine's bus task does not take them, and `LinkLaws.Sendable` keeps the host's packets below that size.
- Link.ReceiveInput: an event of size 0 is received like any other; calloc(1, 0) is assumed to return a pointer.
- Device.NcpDevice.ProcessEvent: neither the RESET event, which restarts the chip, nor the error for a bus that was never set up is modelled.
- Device.NcpDevice.MainTurn: what the frame layer sends while it handles a chunk is a parameter here; `Responses` fixes it to the answer of `Frame.AnswerTo`.
- Frame.FrameLayer.FrameInput: the frame's size is assumed to fit sixteen bits (payload below 65527 bytes); the source does not check it.
- Frame.FrameLayer.RespInput: as for FrameInput.
- Frame.FrameLayer.NotiInput: as for FrameInput.
- Frame.FrameLayer.FrameOutput: asks for an input on which the decoder finishes, which `Slip.TerminatesIff` characterises; on others the source does not return.
- ArgTable.ArgHex.FreeAll: hex options given without a value leave their slots unwritten and are not covered, since freeing reads whatever was there.
- ArgTable.ArgHex.ScanAll: options given without a value are left out, since the source counts a slot it never writes; `ArgTable.ArgHex.Scan` covers the single scan.
- ArgTable.ArgValues.Scan: for address arguments the slot's bytes behind a short address keep their old contents in the source; the collected value is the parsed one.
- DiagSet.UpdateSet: asks for a list that shares no node with the set, as its callers give it, and for keys of at most six characters; time stamps are not modelled.
- DiagHistory.UpdateOne: keys of at most six characters, all that the set's seven-byte field holds with its NUL.
- DiagHistory.UpdateAll: as for UpdateOne.
- OtaImage.CreateImage: what a failing build leaves in the file is not described; file sizes are those of the contents copied later.
- OtaImage.SeekToSubfile: fseek is assumed to succeed.
- HostView.HostReadsAnswers: the host is taken to cut and decode as the device does.
- HostView.EveryRequestIsAnswered: as for HostReadsAnswers.
- Progress.NeverStuck: the bus task is taken to wake up as long as a chunk is left to cut, and a handler to return; the driver's own event queue and the handlers' run time are not modelled.
- Console help output and table layout: printing only.
