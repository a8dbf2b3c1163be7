# Verified model of the skateboard firmware's stateful parts

The firmware (`mcu/main/lib`) has four parts whose behaviour is hard to see from any one
function. This project models each of them as the C code is written and proves what they do over
all inputs and all runs.

* **The PS/2 link** (`Ps2Frame`, `Ps2Deframer`, `Ps2Movement`, `Ps2Link`, `Ps2Handle`, `Ps2Runs`,
  `Ps2Sync`, `Ps2Stale`, `Ps2Wire`, `Ps2EndToEnd`, `Ps2Calls`, `Ps2Pace`, `Remote`, `RemoteStream`). A clock interrupt shifts 11-bit frames in and 12-edge
  transmissions out of one shared frame and feeds two bounded queues; tasks send commands,
  resynchronise, assemble three-byte movement packets and integrate them into a speed.
  `Ps2Handle.Handle` is the driver, updated in place. Each of its methods is proved equal to a
  function on `Ps2Link.Link` values, and the theorems are about those functions and about runs of
  atomic events (clock edges, sends, receives, cleanups) in any interleaving.
* **The BMS protocol** (`UartMessage`, `UartCodec`, `BmsTransaction`). Messages between `5A A5` and
  a complemented 16-bit sum; the code that builds and parses them in allocated buffers, with its
  8-bit remaining length; the bounded retry and the status read on top. `UartCodec.Heap` tracks
  what is allocated, so that nothing can be released twice and every method says what it leaves.
* **BLE control of the speed** (`BleControl`, `BleRuns`, `Onboard`). The slot table of connections,
  the control service that owns the speed, and the board.
* **The push button** (`Button`). A debounced edge interrupt and a one-shot long-press timer.

A task that waits does so while edges keep coming, so the task-side operations take the levels of
the edges that fall inside them as arguments: a wait that times out is one whose edges bring no
frame. What the hardware or a stack decides (a start that fails, a duty that is refused, the replies
of a device, what lies in memory behind an allocation) is an argument too, and every theorem
holds for all of them.

`Errors` holds the error codes, `Words` the integer types, `Sequences` a few facts about sequences.

## Where the code differs from what it says or seems to mean

* A flipped start bit is the one single-bit error the receiver does not always recover from at
  once (`StartFlipRealigns` says exactly when it does).
* `await_mvmt` looks at the always-one bit of the first byte only once three bytes are there, and keeps
  them when it returns BAD_MVMT (`mcu/main/lib/ps2/esk8_ps2_utils.c:238`). From the moment the first
  byte lacks that bit no movement can come, whatever the line carries, until a resynchronisation gets
  past its disable (`SyncRestartsAssembler`). `CanAssembleIff` and `CanDeliverIff` say exactly when one can still come,
  `CallReturnsIff` what a call returns, `StuckUntilRestart` what it does once stuck.
* The response queue is never emptied and a timed-out command leaves the link sending or awaiting its
  response (`TimedOutCommandLeavesResponse`), so a late response is taken for the answer to the next command. A resynchronisation that reports success was
  acknowledged by the device exactly when the queue does not start with an old acknowledgement that is
  alone or followed by another (`SyncIsAcknowledgedIff`). The task that uses it never has more than one
  old response (`TaskKeepsOutstanding`), but it does get to that one, from a device that answers
  once too late (`TaskCanBeFaked`, `OneStaleAckFakesSync`). `SyncRealigns` therefore asks for an empty
  response queue.
* Emptying the movement queue does not reset the frame in flight
  (`mcu/main/lib/ps2/esk8_ps2_utils.c:188-189`): a frame half received there is completed into the
  emptied queue. And the cleanup of the enable does reset it (line 134): a device that has started to
  send by then loses its first packet, although the link looks aligned (`CleanupLosesFirstByte`). After a
  successful resynchronisation the queue goes on with what the device sends from its first bit on exactly
  when nothing is left over from before and the bits by the cleanup are whole frames
  (`SyncLosesNothingIff`; `SyncAlignsIff` is about the link alone).
* `uint8_t remBufferLen` (`mcu/main/lib/uart/esk8_uart.c:98`) wraps: messages with more than 246 bytes of payload never
  parse, and shorter ones only if they fit the remaining length modulo 256 (`ParsesExactly`,
  `RoundTrip`).
* `mcu/main/lib/bms/esk8_bms_utils.c:81` compares the argument of the reply with `err`,
  which is zero there, and not with the register asked for (`AcceptsExactly`): an answer that carries its
  register is accepted only for register zero (`RegisterAnswersOnlyForZero`).
* The copy at `mcu/main/lib/bms/esk8_bms_utils.c:88` takes the requested size from the payload, which
  may be shorter: a message with junk before or after it that makes up the length is accepted too
  (`CopyIsPayloadIff`, `ShortPayloadAcceptedIff`, `OneByteShort`), and the copy then reads behind the
  allocation (`StaysInsideIff`).
* `conn_id > 0` (`mcu/main/lib/ble/ble_apps/app_ble_srvc_ctrl.c:166`) does not protect controller 0
  (`AdmissionKeepsControllerIff`, `ZeroIsDisplaced`).
* Stopping the board clears its record but not the PWM duty, and a controller that leaves a stopped
  board does not clear it either (`StopLeavesTheSignalOn`; `DutyFollowsIff` says exactly when duty and
  recorded speed part, `DutyFollowsOverRuns` when they never do).
* `app_init` forgets the controller without resetting the speed; making the attribute table again keeps
  the dead-man rule only at speed zero (`AttrTabKeepsDeadManIff`).
* A release within the debounce time is ignored, so LONGPRESS does not mean that the button was held
  (`TapReadAsLongIff`).
* Stopping the timer does not keep back a callback that is already due: a release that falls between the
  expiry and the callback gives one press both PRESS and LONGPRESS (`CrossingCountsTwice`,
  `CrossingFromBoot`). The button is sound at every moment exactly in the runs without such a release
  (`AlwaysSoundIff`).

## Model

| member | source | states |
|---|---|---|
| Ps2Frame.GetParity | mcu/main/lib/ps2/esk8_ps2_utils.c:46-56 | the xor folding gives the bit that makes the count of ones in data and parity odd |
| Ps2Frame.FlippingABitFlipsParity | mcu/main/lib/ps2/esk8_ps2_utils.c:46-56 | any single flipped bit changes the parity |
| Ps2Frame.PackDataBits | mcu/main/lib/ps2/esk8_ps2_init.c:50-52 | or-ing in the bits of a byte one after the other rebuilds the byte |
| Ps2Frame.DataBitsPack | mcu/main/lib/ps2/esk8_ps2_init.c:50-52 | eight received levels are the bits of the byte they build |
| Ps2Frame.ValueOfByte | mcu/main/lib/ps2/esk8_ps2_utils.c:246-247 | every number below 256 is the value of its byte |
| Ps2Frame.ByteOfValue | mcu/main/lib/ps2/esk8_ps2_utils.c:246-247 | every byte is the byte of its value |
| Ps2Deframer.ReceiverRefinesDeframer | mcu/main/lib/ps2/esk8_ps2_init.c:28-112 | on every bit stream, valid or not, the edge-by-edge receiver offers the frames of a batch deframer, holds its unfinished frame, and accounts for every edge |
| Ps2Deframer.FeedFromPartial | mcu/main/lib/ps2/esk8_ps2_init.c:28-112 | the same starting in the middle of a frame |
| Ps2Deframer.DeframeAppend | mcu/main/lib/ps2/esk8_ps2_init.c:78-112 | a stream can be cut anywhere, the residue being carried over |
| Ps2Deframer.FeedAppend | mcu/main/lib/ps2/esk8_ps2_init.c:78-112 | the receiver on two streams in turn is the receiver on both joined |
| Ps2Deframer.Resynchronises | mcu/main/lib/ps2/esk8_ps2_init.c:32-53 | in any stream with any frames corrupted, a flipped data or parity bit gives BAD_PRTY then BAD_STRT, a flipped stop bit one error, and every intact frame arrives in order |
| Ps2Deframer.StartFlipRealigns | mcu/main/lib/ps2/esk8_ps2_init.c:34-37 | a flipped start bit leaves the receiver on a frame boundary at the frame's end if and only if bit 0 is clear or the byte is FF |
| Ps2Deframer.FeedsStream | mcu/main/lib/ps2/esk8_ps2_init.c:28-112 | whole frames one after the other are received as their bytes, without error or remainder |
| Ps2Movement.DecodeEncoded | mcu/main/lib/ps2/esk8_ps2_utils.c:238-247 | every movement with x and y in -256..255 is decoded from its three bytes |
| Ps2Movement.EncodeDecoded | mcu/main/lib/ps2/esk8_ps2_utils.c:238-247 | every triple with the always-one bit is the encoding of what it decodes to |
| Ps2Movement.AssembleAppend | mcu/main/lib/ps2/esk8_ps2_utils.c:213-250 | assembly of frames can be interrupted and resumed anywhere, errors included |
| Ps2Movement.ErrorsCostNothing | mcu/main/lib/ps2/esk8_ps2_utils.c:224-235 | an erroneous frame costs nothing that was stored before it: the movements are those of the intact frames |
| Ps2Movement.CanAssembleIff | mcu/main/lib/ps2/esk8_ps2_utils.c:213-239 | some frames can still give a movement if and only if the assembler is at a packet boundary or its first byte has the always-one bit |
| Ps2Movement.AssemblePackets | mcu/main/lib/ps2/esk8_ps2_utils.c:213-250 | frames of whole packets give exactly their movements and end on a packet boundary |
| Ps2Movement.AssemblePrefix | mcu/main/lib/ps2/esk8_ps2_utils.c:213-250 | any prefix gives the movements of its whole packets, the rest of the bytes staying behind |
| Ps2Handle.Handle.constructor | mcu/main/lib/ps2/esk8_ps2_init.c:116-178 | the initial handle: zeroed frame and assembler, empty queues, lock available |
| Ps2Handle.Handle.Receive | mcu/main/lib/ps2/esk8_ps2_init.c:28-56 | the receive switch is one step of the specified receiver, its case 11 never being reached |
| Ps2Handle.Handle.Drive | mcu/main/lib/ps2/esk8_ps2_init.c:57-73 | the send switch drives the level of the frame at this index, and 0 after it |
| Ps2Handle.Handle.Isr | mcu/main/lib/ps2/esk8_ps2_init.c:15-113 | the interrupt, in each of the four states, is the edge function, and keeps the invariant |
| Ps2Handle.Handle.SendByte | mcu/main/lib/ps2/esk8_ps2_utils.c:59-80 | starting a transmission discards the frame in flight and leaves everything else |
| Ps2Handle.Handle.AwaitRsp | mcu/main/lib/ps2/esk8_ps2_utils.c:140-173 | the oldest response is taken, or the timeout or its error reported |
| Ps2Handle.Handle.SendCmd | mcu/main/lib/ps2/esk8_ps2_utils.c:83-137 | the whole command exchange, with edges during its waits, is its specification |
| Ps2Handle.Handle.MvmtSync | mcu/main/lib/ps2/esk8_ps2_utils.c:176-199 | the whole resynchronisation is its specification, and hands F5 and, if that succeeded, F4 to send_byte |
| Ps2Handle.Handle.TakeByte | mcu/main/lib/ps2/esk8_ps2_utils.c:215-235 | one round of the assembly loop |
| Ps2Handle.Handle.FinishPacket | mcu/main/lib/ps2/esk8_ps2_utils.c:238-250 | decoding, or BAD_MVMT with the bytes kept |
| Ps2Handle.Handle.AwaitMvmt | mcu/main/lib/ps2/esk8_ps2_utils.c:202-251 | the assembly loop, with edges between its receives, is its specification |
| Ps2Runs.EveryRunIsSound | mcu/main/lib/ps2/esk8_ps2_init.c:26-112 | over every interleaving: no pending error between edges, the index in range in each state, no bit ahead of the data position, bounded queues, three bytes held only for a bad first byte |
| Ps2Runs.Conservation | mcu/main/lib/ps2/esk8_ps2_init.c:92-110 | exact balance over every run of sends, completed and cut transmissions, responses offered, dropped and taken; every other frame received goes to the movement queue and is there, taken, dropped or discarded |
| Ps2Runs.ResponsesNeedCommands | mcu/main/lib/ps2/esk8_ps2_init.c:92-110 | responses offered, plus one if awaiting, never exceed completed transmissions, nor those the send_byte calls |
| Ps2Runs.TransmitsFrame | mcu/main/lib/ps2/esk8_ps2_init.c:57-73 | eleven edges drive exactly the frame of the byte; the twelfth leaves a zeroed frame, the line released and the receiving state, all else unchanged |
| Ps2Runs.ReceiverAcceptsSender | mcu/main/lib/ps2/esk8_ps2_init.c:57-112 | what is driven for any sequence of commands is received as those bytes, without error |
| Ps2Wire.ValueIsNumber | mcu/main/lib/ps2/esk8_ps2_init.c:50-52 | bit k of a byte counts for two to the k |
| Ps2Wire.ReceivesNumber | mcu/main/lib/ps2/esk8_ps2_init.c:28-56 | the levels of any number, lowest first, with start bit, odd parity and stop bit, are received as the byte that is that number |
| Ps2Wire.SendsNumber | mcu/main/lib/ps2/esk8_ps2_init.c:57-73 | that byte is sent as those eleven levels |
| Ps2Wire.CommandOnTheLine | mcu/main/lib/ps2/esk8_ps2_utils.c:59-105 | after each edge of any command the line is at that level of its frame, and the pin is an output until the stop bit has been driven |
| Ps2Wire.DisableOnTheLine | mcu/main/lib/ps2/esk8_ps2_utils.c:184-186 | a resynchronisation first puts F5 on the line, level by level |
| Ps2Wire.EnableOnTheLine | mcu/main/lib/ps2/esk8_ps2_utils.c:193-195 | and F4 once the device has acknowledged that |
| Ps2Wire.SyncSends | mcu/main/lib/ps2/esk8_ps2_utils.c:176-199 | whatever the line does, it sends F5, and F4 after it exactly if that succeeded |
| Ps2Wire.AnswerOnTheLine | mcu/main/lib/ps2/esk8_ps2_utils.c:104-131 | the answer on the line decides by its number: FA succeeds, FE is RESEND, FC is ERROR, any other NO_ACK |
| Ps2Wire.DecodesLevels | mcu/main/lib/ps2/esk8_ps2_utils.c:238-247 | a movement from the levels of its three bytes: which level is the button, which the always-one bit, and which are worth minus 256 |
| Ps2Wire.NothingBeforeFirstCommand | mcu/main/lib/ps2/esk8_ps2_init.c:74-110 | until a command is sent, nothing on the line is taken for anything |
| Ps2Sync.MvmtEdges | mcu/main/lib/ps2/esk8_ps2_init.c:98-100 | without a command, every frame goes to the movement queue and nothing else changes |
| Ps2Sync.Exchange | mcu/main/lib/ps2/esk8_ps2_init.c:78-112 | after send_byte, against any levels: twelve edges send, the next frame is the response, all later ones are movement |
| Ps2Sync.CommandAnswered | mcu/main/lib/ps2/esk8_ps2_utils.c:83-137 | the whole link after an answered command, whatever the answer |
| Ps2Sync.CommandSucceeds | mcu/main/lib/ps2/esk8_ps2_utils.c:83-137 | without a stale response, a command succeeds if and only if its response frame is an intact acknowledgement within the wait; the same for each of its errors |
| Ps2Sync.CommandIsRun | mcu/main/lib/ps2/esk8_ps2_utils.c:83-137 | a command is a run of atomic events, so what holds over all runs holds of it |
| Ps2Sync.SyncIsRun | mcu/main/lib/ps2/esk8_ps2_utils.c:176-199 | so is a resynchronisation, wherever it stops |
| Ps2Sync.SyncRealigns | mcu/main/lib/ps2/esk8_ps2_utils.c:176-199 | with no stale response, a successful resynchronisation leaves an empty assembler and in the queue exactly the frames completed since it was emptied, a half-received one included, whatever came before |
| Ps2Sync.SyncLosesNothingIff | mcu/main/lib/ps2/esk8_ps2_utils.c:176-199 | after a successful resynchronisation the queue goes on with what the device sends from its first bit on, whatever follows, if and only if nothing is left over from before and the bits by the cleanup are whole frames (in a queue that holds them; with the exact form for one that does not) |
| Ps2Sync.CleanupLosesFirstByte | mcu/main/lib/ps2/esk8_ps2_utils.c:134-134 | a device whose start bit falls before the cleanup loses its first byte to a parity error, though the link is aligned |
| Ps2Sync.SyncAlignsIff | mcu/main/lib/ps2/esk8_ps2_utils.c:184-197 | the link starts with an empty queue, frame and assembler if and only if no frame came to its end since the queue was emptied |
| Ps2Sync.NothingLostIff | mcu/main/lib/ps2/esk8_ps2_utils.c:134-134 | the cleanup's frame reset loses nothing of the stream if and only if the bits before it are whole frames |
| Ps2Stale.SyncIsAcknowledgedIff | mcu/main/lib/ps2/esk8_ps2_utils.c:140-199 | every successful resynchronisation was acknowledged by the device, both commands, if and only if the response queue does not start with an old acknowledgement that is alone or followed by another |
| Ps2Stale.OneStaleAckFakesSync | mcu/main/lib/ps2/esk8_ps2_utils.c:140-199 | with one old acknowledgement and a late answer it succeeds with the enable not even sent |
| Ps2Stale.TimedOutCommandLeavesResponse | mcu/main/lib/ps2/esk8_ps2_utils.c:104-136 | a command that times out, after any number of edges, leaves the link sending or, if it was sent, waiting, and its late response is queued |
| Ps2Stale.SyncKeepsOutstanding | mcu/main/lib/ps2/esk8_ps2_utils.c:83-199 | between commands there is at most one response, queued or to come |
| Ps2EndToEnd.ReturnedIsAssembled | mcu/main/lib/ps2/esk8_ps2_utils.c:213-250 | in every run without a restart, commands included, movements returned are the assembly of frames taken |
| Ps2EndToEnd.QueueConserves | mcu/main/lib/ps2/esk8_ps2_init.c:98-112 | frames taken and queued are those queued before and those the line carried, in order |
| Ps2EndToEnd.EndToEnd | mcu/main/lib/ps2/esk8_ps2_init.c:26-112 | the edges of any packets, interleaved in any way with rounds of await_mvmt that keep the queue from filling, give at every moment a prefix of their movements, and all of them in the end |
| Ps2EndToEnd.SplitsDoNotMatter | mcu/main/lib/ps2/esk8_ps2_utils.c:213-250 | two interleavings over the same bits, valid or not, return the same movements and end in the same state |
| Ps2EndToEnd.CallIsRun | mcu/main/lib/ps2/esk8_ps2_utils.c:202-251 | a call of await_mvmt is such a run, with its outcome as the one movement delivered |
| Ps2EndToEnd.StuckUntilRestart | mcu/main/lib/ps2/esk8_ps2_utils.c:213-239 | once stuck, every call fails with BAD_MVMT and takes nothing, over any run without a restart |
| Ps2EndToEnd.BadMvmtMeansStuck | mcu/main/lib/ps2/esk8_ps2_utils.c:238-239 | in any state of the link, the calls that return BAD_MVMT are those that leave three bytes behind (see Ps2Calls.CallReturnsIff for which those are) |
| Ps2Calls.CallOutcome | mcu/main/lib/ps2/esk8_ps2_utils.c:202-251 | what a call returns from what arrived before each of its receives: the end of the packet, or the timeout or error of the first receive not supplied |
| Ps2Calls.CallReturnsIff | mcu/main/lib/ps2/esk8_ps2_utils.c:213-250 | a movement, and BAD_MVMT, if and only if every receive finds an intact byte and the first byte has, or lacks, the always-one bit |
| Ps2Calls.CanDeliverIff | mcu/main/lib/ps2/esk8_ps2_utils.c:184-239 | some run without a restart, whatever it sends and the line carries, returns a movement if and only if working off the queue does or leaves an assembler that can |
| Ps2Pace.StreamPrefix | mcu/main/lib/ps2/esk8_ps2_init.c:28-112 | any prefix of a stream gives one frame every eleven bits |
| Ps2Pace.CallSucceedsIff | mcu/main/lib/ps2/esk8_ps2_utils.c:213-250 | a call on a clean stream takes its bytes without a frame lost if and only if at each receive the bits of its byte have come and no more than the queue holds |
| Remote.RemoteControl.IncrSpeed | mcu/main/lib/remote/esk8_remote.c:157-177 | the speed is the sum if that is in 0..255 and else the bound it is beyond, and the 8-bit duty equals it |
| Remote.RemoteControl.TaskPs2 | mcu/main/lib/remote/esk8_remote_ps2_task.c:10-74 | the nested loops are the specified alternation of resynchronisations and movements |
| Remote.DutiesFollowMovements | mcu/main/lib/remote/esk8_remote_ps2_task.c:46-72 | over every run of the task the duties are the clamped running sums of the movements' x, and nothing else changes the speed |
| Remote.ClampIsNearest | mcu/main/lib/remote/esk8_remote.c:163-164 | the clamped speed is the nearest in 0..255 |
| Remote.EveryDutyFollows | mcu/main/lib/remote/esk8_remote_ps2_task.c:46-72 | over every run of the task no movement takes the duty against its direction, a sum in range is the duty, and one beyond a bound leaves that bound |
| Remote.TaskIsRun | mcu/main/lib/remote/esk8_remote_ps2_task.c:10-74 | the whole task, with its errors and resynchronisations, is a run of the link, so soundness and conservation over all runs hold of it |
| Remote.TaskKeepsOutstanding | mcu/main/lib/remote/esk8_remote_ps2_task.c:18-73 | the task never has more than one response queued or to come |
| Remote.TaskSyncIsAcknowledgedIff | mcu/main/lib/remote/esk8_remote_ps2_task.c:20-44 | a success of the task's resynchronisation means the device acknowledged it if and only if no old acknowledgement is queued |
| Remote.TaskCanBeFaked | mcu/main/lib/remote/esk8_remote_ps2_task.c:18-44 | from the start, a device that answers the first disable too late makes the task read on a link that is still sending |
| RemoteStream.ReadingIsRun | mcu/main/lib/remote/esk8_remote_ps2_task.c:46-72 | the inner loop, while it goes on, is a run of edges and rounds that delivers one movement a step |
| RemoteStream.ReadsIffPaced | mcu/main/lib/remote/esk8_remote_ps2_task.c:46-72 | on a stream of packets the task reads a movement at every step, without an edge that finds the queue full, if and only if every receive is paced; they are the packets' then |
| RemoteStream.StreamDrivesSpeed | mcu/main/lib/remote/esk8_remote_ps2_task.c:46-72 | from an aligned link, packets read at such a pace drive the duties by exactly their x, in order |
| RemoteStream.ResyncThenStream | mcu/main/lib/remote/esk8_remote_ps2_task.c:18-73 | the same from any state of receiver and assembler, through one successful resynchronisation that leaves the stream's first frames, or none, in the queue |
| RemoteStream.EarlyFramesOfStream | mcu/main/lib/ps2/esk8_ps2_utils.c:134-134 | whole frames a device sent before the cleanup are the first of its stream |
| RemoteStream.EveryStreamCanBeRead | mcu/main/lib/remote/esk8_remote_ps2_task.c:46-72 | every list of packets can be read in full |
| UartMessage.OneByteChangesChecksum | mcu/main/lib/uart/esk8_uart.c:171-184 | changing any one covered byte changes the checksum, even when the sum wraps |
| UartMessage.ChecksummedIff | mcu/main/lib/uart/esk8_uart.c:143-184 | a message is checksummed if and only if the sum of its covered bytes and the stored value, low byte first, has all sixteen bits set |
| UartMessage.ParsedStoresSum | mcu/main/lib/uart/esk8_uart.c:83-184 | every parsed message stores 65535 minus the true sum |
| UartMessage.OnTheWire | mcu/main/lib/uart/esk8_uart.c:37-55 | the message on the wire, byte for byte |
| UartMessage.ShortSumsDoNotWrap | mcu/main/lib/uart/esk8_uart.c:178-181 | for every payload length that can be parsed, the sum does not wrap |
| UartMessage.SetChecksumChecks | mcu/main/lib/uart/esk8_uart.c:29-35 | setting the checksum makes every message pass, whatever was stored |
| UartMessage.SerializedIsInjective | mcu/main/lib/uart/esk8_uart.c:37-55 | the bytes on the wire determine the message |
| UartMessage.ParsesExactly | mcu/main/lib/uart/esk8_uart.c:83-133 | a buffer of any length parses to a message if and only if the message is checksummed, stands byte for byte at the first header and fits the remaining length modulo 256 |
| UartMessage.RoundTrip | mcu/main/lib/uart/esk8_uart.c:37-133 | a message after junk without a header and before anything is found again, or the exact error of the length that wrapped |
| UartMessage.RoundTripShort | mcu/main/lib/uart/esk8_uart.c:98-101 | always within 255 bytes from the header on; never above 246 bytes of payload |
| UartMessage.OneByteChangeRejected | mcu/main/lib/uart/esk8_uart.c:143-155 | changing any one byte after the length of an accepted message, checksum included, gives INVALID_CHKSUM |
| UartCodec.Serialize | mcu/main/lib/uart/esk8_uart.c:37-55 | exactly the message's bytes are written, the rest of the buffer is kept |
| UartCodec.FindHeader | mcu/main/lib/uart/esk8_uart.c:57-81 | the first header, or -1 |
| UartCodec.BuffChkCalc | mcu/main/lib/uart/esk8_uart.c:171-184 | the wrapping 16-bit loop computes the complemented sum, low byte first: with it the bytes sum up to all ones |
| UartCodec.ChkCalc | mcu/main/lib/uart/esk8_uart.c:157-168 | the checksum of the covered bytes, with its buffer released |
| UartCodec.SetChk | mcu/main/lib/uart/esk8_uart.c:29-35 | only the checksum changes, and the message is then checksummed |
| UartCodec.MsgChk | mcu/main/lib/uart/esk8_uart.c:143-155 | OK if and only if the message is checksummed |
| UartCodec.ParseMsg | mcu/main/lib/uart/esk8_uart.c:83-133 | the specified parse for every buffer length, reading inside the buffer only; one fresh payload on success, nothing allocated on failure |
| UartCodec.CopyMessage | mcu/main/lib/uart/esk8_uart.c:107-121 | the fields and a fresh copy of the payload are those of the message at the header |
| UartCodec.RegreadMsgNew | mcu/main/lib/uart/esk8_uart.c:5-27 | the checksummed request to read a register, owning its one-byte payload |
| UartCodec.RequestOnTheWire | mcu/main/lib/uart/esk8_uart.c:5-27 | the ten bytes of a request, its checksum as a number |
| UartCodec.ReadRequest | mcu/main/lib/uart/esk8_uart.c:13-23 | the request is checksummed |
| BmsTransaction.TransactsFirstAccepted | mcu/main/lib/bms/esk8_bms_utils.c:30-92 | success if and only if some attempt is accepted, with the first such payload and no attempt after it; otherwise every attempt is made and the last error returned |
| BmsTransaction.AcceptsExactly | mcu/main/lib/bms/esk8_bms_utils.c:57-86 | a reply is accepted if and only if it has the whole length and parses to a message from the BMS with argument zero |
| BmsTransaction.RejectsFor | mcu/main/lib/bms/esk8_bms_utils.c:57-86 | why a reply is rejected, in order |
| BmsTransaction.HonestReply | mcu/main/lib/bms/esk8_bms_utils.c:57-90 | what each checksummed answer of a device comes to, the right one being accepted with its payload |
| BmsTransaction.CopyIsPayloadIff | mcu/main/lib/bms/esk8_bms_utils.c:88-88 | the copied value depends on the reply alone if and only if the payload has the size asked for, and then it is the payload |
| BmsTransaction.JunkMakesUpForPayload | mcu/main/lib/bms/esk8_bms_utils.c:57-90 | a message with junk around it is accepted for a size its payload does not have |
| BmsTransaction.ShortPayloadAcceptedIff | mcu/main/lib/bms/esk8_bms_utils.c:57-90 | some reply is accepted with a payload shorter than the size if and only if the size is not zero |
| BmsTransaction.OneByteShort | mcu/main/lib/bms/esk8_bms_utils.c:88-88 | one byte of payload where two are asked for: the second is what lies behind |
| BmsTransaction.WriteRequest | mcu/main/lib/bms/esk8_bms_utils.c:33-53 | the serialised request is sent and its buffer released |
| BmsTransaction.RegisterAnswersOnlyForZero | mcu/main/lib/bms/esk8_bms_utils.c:81-86 | a valid answer whose argument is the register asked for is accepted if and only if that is zero |
| BmsTransaction.StaysInsideIff | mcu/main/lib/bms/esk8_bms_utils.c:88-88 | the copy reads inside the payload's allocation if and only if the payload has the size asked for |
| BmsTransaction.CopyOut | mcu/main/lib/bms/esk8_bms_utils.c:88-88 | the copy, counting what it reads from behind the payload |
| BmsTransaction.TakeReply | mcu/main/lib/bms/esk8_bms_utils.c:55-91 | one attempt is its specification, writes the output only on success, counts what is read from behind the payload, and releases every payload |
| BmsTransaction.GetDataWithResponse | mcu/main/lib/bms/esk8_bms_utils.c:5-96 | the retry loop is the specified transaction, sends the same request once an attempt, leaves the output on failure, and ends with the live set it began with; at most three requests, and three if it fails |
| BmsTransaction.ReadsAllOrFirstError | mcu/main/lib/bms/esk8_bms_get_status.c:27-39 | all registers are read if and only if each is accepted, each value in its place; otherwise the error is the first one |
| BmsTransaction.FieldsMatchRegisters | mcu/main/lib/bms/esk8_bms_get_status.c:17-39 | every field of the status holds what was read from the register of its name, current being signed |
| BmsTransaction.GetStatus | mcu/main/lib/bms/esk8_bms_get_status.c:9-40 | the structure is written only if all registers were read; the requests go to the BMS for the right registers |
| BmsTransaction.AsksOnTheWire | mcu/main/lib/bms/esk8_bms_get_status.c:17-33 | the requests of the status read, byte for byte |
| BmsTransaction.StatusInNumbers | mcu/main/lib/bms/esk8_bms.h:11-19 | the status in numbers: words low byte first, a signed current |
| Onboard.OnboardState.Start | mcu/main/lib/onboard/esk8_onboard.c:14-95 | the board after each way a start can go: left in INIT by the first allocation, stopped by a later failure, running, or refused |
| Onboard.OnboardState.UpdateSpeed | mcu/main/lib/onboard/esk8_onboard.c:97-118 | a stopped board refuses; otherwise the speed is recorded even if the PWM refuses the duty |
| Onboard.OnboardState.Stop | mcu/main/lib/onboard/esk8_onboard.c:120-138 | the record is cleared and the duty kept |
| BleControl.ControlApp.RegisterApp | mcu/main/lib/ble/esk8_ble_apps.c:119-148 | a fresh table with every slot free |
| BleControl.ControlApp.AppConnAdd | mcu/main/lib/ble/ble_apps/app_ble_srvc_ctrl.c:162-174 | the add callback: who becomes controller |
| BleControl.ControlApp.AppConnDel | mcu/main/lib/ble/ble_apps/app_ble_srvc_ctrl.c:176-187 | the del callback: only the controller's resets the speed |
| BleControl.ControlApp.AppConnWrite | mcu/main/lib/ble/ble_apps/app_ble_srvc_ctrl.c:189-227 | only a one-byte speed write of the controller reaches the board |
| BleControl.ControlApp.GetCtx | mcu/main/lib/ble/esk8_ble_apps_util.c:8-24 | the first slot of the connection, or INVALID_PARAM if there is none |
| BleControl.ControlApp.GetAttrIdx | mcu/main/lib/ble/esk8_ble_apps_util.c:26-41 | the first attribute with the handle, or INVALID_PARAM |
| BleControl.ControlApp.NotifyAll | mcu/main/lib/ble/esk8_ble_apps_util.c:65-92 | an indication to each used slot, in order |
| BleControl.ControlApp.OnAttrTab | mcu/main/lib/ble/esk8_ble_apps.c:262-293 | a complete table is taken over and the service initialised, any other ignored |
| BleControl.ControlApp.OnConnect | mcu/main/lib/ble/esk8_ble_apps.c:295-328 | the first free slot is taken and the callback made, or nothing happens |
| BleControl.ControlApp.OnDisconnect | mcu/main/lib/ble/esk8_ble_apps.c:330-348 | the callback is made and the connection's slot freed, or nothing happens |
| BleControl.ControlApp.OnWrite | mcu/main/lib/ble/esk8_ble_apps.c:350-383 | only known attributes and connections reach the service |
| BleControl.ControlApp.DeinitApps | mcu/main/lib/ble/esk8_ble_apps.c:154-187 | the del callback for every used slot, then no table |
| BleRuns.TableRefinesSet | mcu/main/lib/ble/esk8_ble_apps.c:295-348 | every event takes the slots, kept without duplicates, as it takes the set of admitted connections, never more than slots |
| BleRuns.RunRefinesTable | mcu/main/lib/ble/esk8_ble_apps.c:295-348 | the same over every run |
| BleRuns.UsedIsMembers | mcu/main/lib/ble/esk8_ble_apps_util.c:73-89 | a broadcast goes once to each connection in the table and to no other |
| BleRuns.EveryRunIsSound | mcu/main/lib/ble/esk8_ble_apps.c:207-390 | the dead-man rule, the agreement of table and callbacks, and table within live connections, over every run |
| BleRuns.DeadManFromBoot | mcu/main/lib/ble/ble_apps/app_ble_srvc_ctrl.c:162-227 | from boot: the controller is none or an admitted live connection, without one or on a stopped board the speed is zero, add and del callbacks pair off |
| BleRuns.DeinitClears | mcu/main/lib/ble/esk8_ble_apps.c:160-184 | after deinit no controller, no open callback, and the speed reset if there was a controller |
| BleRuns.SpeedChangesExactly | mcu/main/lib/ble/ble_apps/app_ble_srvc_ctrl.c:176-227 | the speed changes only by a one-byte speed write of the controller, its removal or a stop, and each of these sets it |
| BleRuns.AdmissionKeepsControllerIff | mcu/main/lib/ble/ble_apps/app_ble_srvc_ctrl.c:166-169 | an admitted connection leaves the controller if and only if that is above zero |
| BleRuns.ZeroIsDisplaced | mcu/main/lib/ble/ble_apps/app_ble_srvc_ctrl.c:166-169 | controller 0 is displaced by any admitted connection, the speed staying |
| BleRuns.FirstComeKeepsControl | mcu/main/lib/ble/ble_apps/app_ble_srvc_ctrl.c:162-227 | a controller above zero stays until it is removed, and the board goes as it alone drives it, whatever others do |
| BleRuns.AttrTabTakenIff | mcu/main/lib/ble/esk8_ble_apps.c:262-293 | new handles are taken if and only if the table was made and has seven of them; else nothing changes |
| BleRuns.StartDecides | mcu/main/lib/onboard/esk8_onboard.c:14-118 | after a start that succeeds the controller's write drives the board, after a failed one it is refused, and a board left half started records it |
| BleRuns.DrivesFromBoot | mcu/main/lib/onboard/esk8_onboard.c:14-118 | from boot: registration, attribute table, connection, start and a write to the third handle give that speed and duty |
| BleRuns.RejectedHasNoEffect | mcu/main/lib/ble/esk8_ble_apps.c:310-375 | a connection not admitted is never let in later, and its writes and its leaving change nothing |
| BleRuns.DutyFollowsOverRuns | mcu/main/lib/onboard/esk8_onboard.c:97-138 | over every run with stops at speed zero only and no duty refused, the duty is the recorded speed, and zero without a controller |
| BleRuns.DutyFollowsIff | mcu/main/lib/onboard/esk8_onboard.c:97-138 | exactly which events part the PWM duty from the recorded speed |
| Button.Config.DebounceUs | mcu/main/lib/btn/esk8_btn.c:172-172 | the 32-bit product is the time in microseconds if and only if it is at most 4294967 ms |
| Button.Config.LongpressUs | mcu/main/lib/btn/esk8_btn.c:198-201 | the same for the long-press time |
| Button.Button.BtnIsr | mcu/main/lib/btn/esk8_btn.c:159-213 | the edge interrupt is its specification |
| Button.Button.TmrIsr | mcu/main/lib/btn/esk8_btn.c:141-156 | the timer callback is its specification, at any time after the expiry |
| Button.Button.AwaitPress | mcu/main/lib/btn/esk8_btn.c:91-113 | the queued press is taken, or the timeout reported |
| Button.EveryRunBalances | mcu/main/lib/btn/esk8_btn.c:141-213 | over every run, edges between expiry and callback included: accepted presses and stray callbacks are the events offered plus one while PRESSED, and every event is taken, queued or dropped, in order |
| Button.PressesBalanceIff | mcu/main/lib/btn/esk8_btn.c:141-213 | from boot, accepted presses are the events offered plus one while PRESSED if and only if no callback found the button released |
| Button.EveryRunIsSound | mcu/main/lib/btn/esk8_btn.c:141-213 | over every run without a release between expiry and callback: timer armed or callback due if and only if PRESSED, presses and events paired in order, every event in its window |
| Button.AlwaysSoundIff | mcu/main/lib/btn/esk8_btn.c:141-213 | a run is so at every moment if and only if no release falls between an expiry and its callback |
| Button.PressesInTime | mcu/main/lib/btn/esk8_btn.c:141-213 | the same from boot: PRESS between debounce and long-press time, LONGPRESS at the long-press time, each up to the timer's lateness |
| Button.CrossingCountsTwice | mcu/main/lib/btn/esk8_btn.c:141-188 | such a release gives the press a PRESS and the callback a LONGPRESS as well |
| Button.CrossingFromBoot | mcu/main/lib/btn/esk8_btn.c:141-188 | it comes up from boot with a timer that is never late |
| Button.QueueKeepsOrder | mcu/main/lib/btn/esk8_btn.c:151-155 | over every run, what is taken and queued are in order the presses that found the queue empty; one that finds it full is dropped and the one there stays |
| Button.StepKeepsQueue | mcu/main/lib/btn/esk8_btn.c:151-155 | every event is taken, queued or dropped, and without drops they leave in the order they were offered |
| Button.BouncesDoNotMatter | mcu/main/lib/btn/esk8_btn.c:168-173 | the button behaves as on the signal without the edges closer than the debounce time |
| Button.DebouncedIsSpaced | mcu/main/lib/btn/esk8_btn.c:168-173 | in that signal any two edges are at least the debounce time apart |
| Button.GesturesAreRead | mcu/main/lib/btn/esk8_btn.c:141-213 | every sequence of presses, however the contacts bounce, gives one event each: LONGPRESS at its time if held that long, else PRESS on release |
| Button.TapReadAsLongIff | mcu/main/lib/btn/esk8_btn.c:171-172 | after a tap the long-press timer runs on if and only if the release fell within the debounce time |

## Left out

- The hardware and the systems below: GPIO, LEDC, the UART driver, Bluedroid, FreeRTOS. They appear as levels read and driven, queues that drop when full, a timer that fires, bytes read, events delivered.
- Two tasks sending on the PS/2 link at once: `mvmt_sync` gives the lock a second time, so mutual exclusion would not hold; the firmware has one sender.
- Clock edges inside `send_byte`: the clock is held low there, so there are none. Edges within a single statement of a task are not modelled; the steps are atomic.
- How long things last on the PS/2 side: timeouts are the ends of edge lists, and the pauses of `esk8_remote_task_ps2` (with `ps2_available`, which only chooses between them) do nothing.
- Overflow of `int`: the speed is clamped at every step and x is within nine bits, so it cannot occur there; buffers longer than the largest `int` are not considered in `find_header`.
- Allocation failure in the UART code and in registering an application, which the code does not survive or only half undoes.
- BmsTransaction.GetDataWithResponse: what lies in memory behind a short payload is an argument; how many bytes are read there is returned, what the hardware does on reading them is not modelled.
- BleControl.ControlApp.RegisterApp: one application, the control service. The list of several, its NOINIT and MAXREG errors and the choice of one by its interface are left out; the events are those of its interface.
- Onboard.OnboardState.UpdateSpeed: a board left in INIT by its first allocation has no PWM handle; setting its speed is modelled like any other.
- The status and auth services, the attribute tables, notification of the new speed, advertising, authentication, NVS, the deep BMS status, PWM setup, scanning of the remote, logging.
- Timestamps of the button are mathematical integers from zero on; the unsigned 64-bit difference of the code agrees with them for all times a device reaches.
