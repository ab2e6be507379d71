# Verification of the firmware's protocol and storage logic

This project models, in Dafny 4.11, the host-independent logic of an STM32H7 automotive I/O and CAN
console, and proves properties of it: the ISO-TP transport and its CAN adapter, A/B boot control
under power loss, the retained event log, the CAN transmit queue, the UDS server and download, the
stack-bound estimator, bus-off recovery, and three arithmetic cores (latency percentiles, calendar
numbering, DBC signal layout). `dafny verify dfyconfig.toml` checks everything.

## How it is laid out

| files | content |
|---|---|
| `Machine.dfy` | 32-bit wrap-around arithmetic and the signed comparisons built on it |
| `IsoTp.dfy`, `IsoTpChannel.dfy` | the channel as a state machine on values; the object with buffers and fields, proved equal to it |
| `IsoTpTransfer.dfy` | two channels and the frames in flight: complete transfers, and lost frames |
| `IsoTpTiming.dfy` | how long a channel waits, in microseconds, and which frames it accepts |
| `IsoTpDuplex.dfy` | two transfers at once, in opposite directions over the same two channels |
| `CanIsoTp.dfy` | the adapter that books every response message |
| `BootControl.dfy`, `BootFlash.dfy` | the boot record and its operations; writing it to a flash that may fail anywhere |
| `BootImage.dfy`, `BootTarget.dfy`, `BootRuns.dfy` | image validation and jump plan; one boot; whole lives |
| `EventLog.dfy`, `EventLogStore.dfy` | the retained log, its word-by-word commit and its recovery; the object over 64 slots |
| `EventLogClear.dfy`, `EventLogLives.dfy` | power cuts inside a clear; whole lives, against records that come and go by place |
| `TxQueue.dfy`, `CanTransport.dfy` | two FIFOs as specification; the array that implements them |
| `UdsDownload.dfy`, `UdsServer.dfy`, `UdsObjects.dfy` | download and server on values; the objects, proved equal |
| `UdsAuthority.dfy`, `UdsAnswers.dfy` | nothing is written without an authorized erase; every answer, byte by byte |
| `StackEstimator.dfy` | memoised search over a call graph, and the interrupt envelope |
| `BusOffRecovery.dfy` | the recovery state machine with interrupts between any two reads |
| `AckTiming.dfy`, `RtcCalendar.dfy`, `DbcSignals.dfy` | histogram percentiles, calendar numbering, signal layout |

Where the source updates fields or buffers in place, a class or method does so too and its `ensures`
ties the new state to a function on values; what the source promises is then proved of that function.
Register values are 32-bit and wrap; where a statement is about true times or true counts, ghost
unbounded numbers stand beside the registers. Checksums (CRC-32 of boot records, CRC-16 of log
records) are parameters: every statement holds for every checksum function, so none rests on the
absence of collisions. Driver results, clocks, flash failures, authorisation, signature and digest
verdicts are nondeterministic results or parameters.

The flash is adversarial. Erasing a record sector happens completely or not at all. Programming a
sixteen-byte unit may be cut and may leave any sixteen bytes in that unit, and the return codes of
erase, program, lock and unlock promise nothing; a successful read returns what the flash holds. Of a
`sound` device, which does what it is asked, success is proved as well.

## Findings

Where the code does more, or less, than its comments and names suggest, the exact condition is proved.

- **Delivery.** A transfer in which both sides are served in time always delivers exactly if the
  separation time the receiver asks for is below its own consecutive-frame timeout, or its block size
  is 1, or the payload takes at most two frames (`DeliveryIsExact`). `IsoTp_Init` accepts other
  configurations; with those, after two frames the receiver gives up before the sender may go on
  (`SlowSenderIsStuck`). Two transfers in opposite directions do not disturb each other
  (`BothAreDelivered`). The one assumption on the environment is that a sender that may go on is
  polled within the 2^31 microseconds its comparison can tell apart.
- **Lost frames.** A transfer of which any frame is lost never completes, without any bound on the
  length of the gap: a gap of sixteen frames does pass the sequence check, but the bytes it skips
  are missing at the end, because every consecutive frame adds at most seven.
- **Interrupted clear.** A power cut inside `App_Log_Clear` can leave records that the log has lost,
  and recovery may take them up again. Every cut leaves a contiguous part of the log exactly if no
  lost record lies behind the last slot that holds a record of the log (`ClearCutsAreParts`;
  `CutClearsLeaveParts` says so over whole lives). After every life with a full log whose newest record
  lies neither in the first nor in the last slot, two interrupted clears in a row break it: the first
  leaves the newest record alone, the second recovers an older one that the log no longer had
  (`InterruptedClearsBringBack`, `LostRecordReturnsInLife`).
- **Error-passive bookkeeping.** The error-passive branch of `CAN_Handle_BusOff_Recovery` compares
  the event counter and then reads it again. If it has come round by 2^32 in between, outside a
  fault episode, one record too many is counted; the bus-off branch guards against this
  (`Core/Src/can_recovery.c:213`). `BookingBalances` gives the exact condition,
  `LappedCounterIsMisbooked` the case, and `Recovery.LogErrorPassive` says when it happens.
- **Clock write check.** The tolerance of two hundredths does not extend across midnight: a reading
  on the other side of it shows another weekday than the one expected, and is refused
  (`NearMidnightMayBeRefused`, an equivalence).
- **Jump plan.** `Boot_Jump_Prepare` accepts a validated image exactly if its slot is aligned for the
  vector table; both slots of the product are.
- **Stack envelope.** Nothing keeps frame sizes from being negative. `EnvelopeIsExact`: the envelope
  bounds every nesting exactly if every interrupt has some path whose cost and exception frame
  together are not negative; frame sizes that are not negative suffice (`NonNegativeFramesSuffice`),
  and `NegativeFrameBreaksEnvelope` gives records, accepted by the reader, for which it fails.
- **Answer counts.** Requests equal positive, negative and suppressed answers, whatever is requested,
  exactly if response buffers have at least six bytes (`SixBytesExactly`).

## Model

| member | source | states |
|---|---|---|
| Machine.ReachedIsTrueOrder | Core/Src/isotp_transport.c:32-35 | the signed 32-bit deadline test is the true order of two instants less than 2^31 apart |
| Machine.AddIsWrapped | Core/Src/isotp_transport.c:168-171 | adding to a wrapping register is adding to the true time and then wrapping |
| IsoTp.StepKeepsValid | Core/Src/isotp_transport.c:54-74 | any input of any kind keeps the channel inside its buffers, 6 <= offset < length <= capacity while receiving, offset and next number those of the frames accepted, and never rewinds a reception |
| IsoTp.ConsecutiveKeepsValid | Core/Src/isotp_transport.c:181-255 | a consecutive frame advances offset and number together, or ends the reception |
| IsoTp.FrameKeepsValid | Core/Src/isotp_transport.c:418-460 | an arbitrary frame at an arbitrary time keeps all of that |
| IsoTp.ProcessKeepsValid | Core/Src/isotp_transport.c:462-541 | a poll keeps it and does nothing to a reception but abandon it |
| IsoTp.EveryHistoryIsValid | Core/Src/isotp_transport.c:418-541 | over every history of frames, polls, starts, releases and cancels |
| IsoTp.CompletedMessageIsFrozen | Core/Src/isotp_transport.c:577-592 | a completed message is not altered by any history without a release or cancel |
| IsoTpChannel.CopyInto | Core/Src/isotp_transport.c:114-117 | the byte-copy loop replaces exactly the bytes from `at` on |
| IsoTpChannel.Channel.Init | Core/Src/isotp_transport.c:323-349 | a configuration is refused exactly if capacities, timeouts or STmin are unusable |
| IsoTpChannel.Channel.ReceiveSingleFrame | Core/Src/isotp_transport.c:92-123 | the object does to its buffer and fields what the value-level handler says, including busy and malformed frames |
| IsoTpChannel.Channel.ReceiveFirstFrame | Core/Src/isotp_transport.c:125-179 | likewise for a first frame, with the continue or overflow reply |
| IsoTpChannel.Channel.ReceiveConsecutiveFrame | Core/Src/isotp_transport.c:181-255 | likewise for a consecutive frame, with timeout, sequence error and block-end reply |
| IsoTpChannel.Channel.ReceiveFlowControlFrame | Core/Src/isotp_transport.c:257-321 | likewise for flow control, including wait limit, overflow and a reserved STmin |
| IsoTpChannel.Channel.OnFrame | Core/Src/isotp_transport.c:418-460 | dispatch of an arbitrary frame, whole new state, result and reply |
| IsoTpChannel.Channel.Transmit | Core/Src/isotp_transport.c:351-416 | start of a transmission, whole new state, result and frame |
| IsoTpChannel.Channel.Poll | Core/Src/isotp_transport.c:462-541 | one poll: timeouts of both sides, pacing, next frame, block end |
| IsoTpChannel.Channel.ReleaseReceivedMessage | Core/Src/isotp_transport.c:577-584 | only a completed message is released |
| IsoTpTransfer.StartIsInLockstep | Core/Src/isotp_transport.c:351-416 | a started transfer to an idle receiver is in lockstep |
| IsoTpTransfer.SenderPollsInLockstep | Core/Src/isotp_transport.c:462-541 | a poll of the sender sends the next frame exactly if it may and its pace is due |
| IsoTpTransfer.ReceiverTakesInLockstep | Core/Src/isotp_transport.c:181-255 | the receiver accepts exactly the frame expected and replies exactly at block ends |
| IsoTpTransfer.SenderTakesInLockstep | Core/Src/isotp_transport.c:257-321 | a flow-control frame arrives only at a sender that waits for it, and lets it go on |
| IsoTpTransfer.RunInLockstep | Core/Src/isotp_transport.c:181-321 | over every timely run both block counters agree, and every effective step uses up work |
| IsoTpTransfer.LockstepIsNeverStuck | Core/Src/isotp_transport.c:462-541 | under a feasible configuration, unless the payload has been delivered, some timely event takes the transfer further |
| IsoTpTransfer.TimelyTransferDelivers | Core/Src/isotp_transport.c:351-541 | for every payload of 1..4095 bytes, configuration and timely run: a flow-control frame is in flight exactly if the sender waits and everything sent has arrived, at most 4n effective steps, a run that falls quiet has delivered the payload to a completed receiver, and under a feasible configuration so has every run that can go no further |
| IsoTpTransfer.SlowSenderIsStuck | Core/Src/isotp_transport.c:323-349 | for every other configuration that is accepted, a timely run ends undelivered with nothing left that is in time |
| IsoTpTransfer.DeliveryIsExact | Core/Src/isotp_transport.c:462-541 | every timely run that can go no further has delivered, exactly if STmin is below the timeout, or the block size is 1, or there are at most two frames |
| IsoTpDuplex.ActKeepsBoth | Core/Src/isotp_transport.c:418-541 | whatever one side starts, sends or takes keeps both transfers in lockstep: each sees its own event, or time passing, in the other |
| IsoTpDuplex.NeverHalted | Core/Src/isotp_transport.c:462-541 | while a payload is undelivered and both configurations are feasible, some move meets every deadline of both transfers and takes one of them further |
| IsoTpDuplex.BothAreDelivered | Core/Src/isotp_transport.c:351-541 | two transfers in opposite directions, started, polled and interleaved in any way in time: at most 4 effective steps per frame, a transfer that falls quiet has delivered, and with feasible configurations a run that can go no further has delivered both payloads |
| IsoTpTiming.ContinueIsExact | Core/Src/isotp_transport.c:37-52 | a continue frame is obeyed exactly with STmin 0..127 or 0xF1..0xF9, and with any other byte ends the transmission as invalid |
| IsoTpTiming.PaceIsExact | Core/Src/isotp_transport.c:257-321 | after permission with STmin byte x the next frame goes out at the first poll, and the one behind it exactly from 1000x microseconds on, or 100(x - 0xF0) for 0xF1..0xF9 |
| IsoTpTiming.SenderWaits | Core/Src/isotp_transport.c:257-321 | a waiting sender gives up exactly when its timeout has passed, at a poll and at a frame |
| IsoTpTiming.WaitStartsTimeout | Core/Src/isotp_transport.c:351-541 | that timeout starts anew whenever a transmission comes to wait |
| IsoTpTiming.ReceiverWaits | Core/Src/isotp_transport.c:181-255 | a receiver gives up exactly when its timeout has passed, at a poll and at a frame |
| IsoTpTiming.AcceptedStartsTimeout | Core/Src/isotp_transport.c:125-255 | that timeout starts anew with every frame accepted |
| IsoTpTiming.WaitsAreCounted | Core/Src/isotp_transport.c:257-321 | exactly the configured number of wait frames in a row is put up with |
| IsoTpTiming.OtherStatusEnds | Core/Src/isotp_transport.c:257-321 | overflow, a reserved status and a short frame end the transmission, each with its result |
| IsoTpTiming.TransmitIsExact | Core/Src/isotp_transport.c:351-416 | a payload is taken exactly if it has 1..4095 bytes, fits, and nothing is being sent; otherwise nothing changes |
| IsoTpTiming.SingleIsExact | Core/Src/isotp_transport.c:92-123 | a single frame is taken exactly if nothing is held and it carries its 1..7 bytes |
| IsoTpTiming.FirstIsExact | Core/Src/isotp_transport.c:125-179 | a first frame opens a reception of its 12-bit length, or is busy, malformed or answered with overflow |
| IsoTpTiming.ConsecutiveIsExact | Core/Src/isotp_transport.c:181-255 | a consecutive frame is taken exactly if expected, in time and long enough; otherwise it ends the reception with the reason |
| IsoTpTransfer.FrameAfterGap | Core/Src/isotp_transport.c:205-240 | a frame after a gap ends the reception or is counted as one frame only |
| IsoTpTransfer.LossNeverCompletes | Core/Src/isotp_transport.c:181-255 | however many frames are lost and whenever the others arrive, a receiver that completes has seen all of them and holds the payload |
| CanIsoTp.EveryMessageCountedOnce | Core/Src/can_isotp.c:12-44 | a history of messages is completed plus aborted plus at most the one in transmission |
| CanIsoTp.AnswersAreExact | Core/Src/can_isotp.c:46-86 | which core results each answer of the adapter stands for |
| CanIsoTp.Adapter.Conservation | Core/Src/can_isotp.c:301-307 | started = completed + aborted + (1 while transmitting), in the 32-bit counters |
| CanIsoTp.Adapter.OnFrame | Core/Src/can_isotp.c:108-189 | a received frame settles at most the message in transmission, as aborted, once; channel and answer after the core call and a refused reply |
| CanIsoTp.Adapter.Poll | Core/Src/can_isotp.c:191-238 | a poll settles at most that message, whatever the CAN queue answers; channel and answer afterwards |
| CanIsoTp.Adapter.SendTransmitFrame | Core/Src/can_isotp.c:12-44 | a refused frame aborts the message, the last accepted frame completes it, never both |
| CanIsoTp.Adapter.StartResponse | Core/Src/can_isotp.c:240-279 | one more message exactly if the core took the payload |
| BootControl.DecodeIsInverse | Core/Src/boot_control.c:145-209 | a record decodes to a state exactly if it is the committed record of that valid state, byte for byte |
| BootControl.CommittedDecodes | Core/Src/boot_control.c:232-294 | what is prepared and marked committed decodes to the state it was made from |
| BootControl.RecordLayout | Core/Src/boot_control.c:232-294 | every byte of a committed record: magic, version, size, fields little-endian at their offsets, zeros, checksum of the first 56 bytes, marker |
| BootControl.LoadIsExact | Core/Src/boot_control.c:296-364 | of two committed states d generations apart the later one is loaded for 0 < d < 2^31; the same state twice is loaded from the first place; equal generations of different states, and d = 2^31, are a conflict |
| BootControl.LoadOfOne | Core/Src/boot_control.c:296-364 | a single committed record is loaded from where it is, and there is none exactly if neither place holds a committed valid state |
| BootControl.SuccessorWins | Core/Src/boot_control.c:296-364 | of a state and its successor in either place the successor is loaded, also across the wrap of the generation |
| BootControl.OperationsSucceed | Core/Src/boot_control.c:366-491 | every operation leaves the state alone or a valid successor of it |
| BootFlash.PrepareRecord | Core/Src/boot_control.c:232-284 | the record in RAM is the byte layout of the state, or is untouched if the state is not valid |
| BootFlash.MarkRecordCommitted | Core/Src/boot_control.c:286-294 | adds the marker and changes none of the first three units |
| BootFlash.VerifyRange | Core/Src/boot_flash.c:32-64 | success means the flash holds the expected bytes |
| BootFlash.TornCommit | Core/Src/boot_control.c:145-209 | over a verified body the last unit has exactly one acceptable value, whatever bytes a cut leaves |
| BootFlash.BodyUnitKeepsCut | Core/Src/boot_flash.c:146-162 | a torn body unit leaves no acceptable record and the other record alone |
| BootFlash.CommitUnitKeepsCut | Core/Src/boot_flash.c:172-187 | a torn commit unit leaves the new record or none |
| BootFlash.PersistControl | Core/Src/boot_flash.c:94-202 | every content the flash passes through is the old record, none, or after body verification the new one; the other record is never touched; success means the new record is in place, and a sound device succeeds |
| BootFlash.CutLoadsOldOrNew | Core/Src/boot_control.c:296-364 | from every such content exactly the old or exactly the successor state is loaded, the latter only after body verification |
| BootImage.Validate | Core/Src/boot_image.c:86-234 | accepted exactly if every range, stack, entry, rollback, signature and digest condition holds; otherwise no data is handed out |
| BootImage.AcceptedExactly | Core/Src/boot_image.c:86-234 | a manifest of given words with given vectors is accepted exactly if the image fits behind the header, its odd entry lies inside, its stack pointer is aligned in RAM, its security counter is not below the minimum and both verdicts are favourable |
| BootImage.AcceptedSays | Core/Src/boot_image.c:86-234 | every accepted manifest has that form |
| BootImage.IsStackPointerValid | Core/Src/boot_image.c:57-84 | aligned and inside one of the RAM regions, for any list of regions |
| BootImage.ValidatedIsPreparable | Core/Src/boot_jump.c:22-68 | the second look accepts a validated image exactly if its slot is vector-aligned, and does so for both slots |
| BootImage.PreparedExactly | Core/Src/boot_jump.c:22-68 | a plan is made exactly for an aligned image behind the header with its odd entry inside it |
| BootTarget.ControlBlock.ScheduleUpdate | Core/Src/boot_control.c:366-393 | the fields after scheduling, and every refusal |
| BootTarget.ControlBlock.SelectBoot | Core/Src/boot_control.c:395-448 | the fields, decision and change flag after selection |
| BootTarget.ControlBlock.ConfirmRunning | Core/Src/boot_control.c:450-491 | the fields after confirmation, and every refusal |
| BootTarget.SelectionIsExact | Core/Src/boot_control.c:395-448 | the pending slot if bootable with attempts left, else the confirmed slot if bootable, else recovery; an attempt is counted, or the pending update cleared, with the next generation |
| BootTarget.BootableIsExact | Core/Src/boot_target.c:7-29 | a slot is bootable exactly if its image is acceptable there and has the security counter and build that the record gives to the confirmed or the pending slot |
| BootTarget.JudgeSlot | Core/Src/boot_target.c:7-29 | a slot counts as valid exactly if its image is acceptable and its identity matches the record |
| BootTarget.Run | Core/Src/boot_target.c:31-161 | the decided state is in flash before a jump, every content on the way is a cut of it, and the jump goes to a bootable image with exactly the prepared plan; on a sound device the jump goes to the pending slot exactly if that is bootable with attempts left, otherwise to the confirmed slot exactly if that is bootable, otherwise the result is recovery, and the record left says so |
| BootTarget.DecidedIsBootable | Core/Src/boot_target.c:92-160 | what is decided to be started is a bootable image of that slot |
| BootRuns.ProvisionedIsGood | Core/Src/boot_control.c:211-230 | the initial record beside a blank one is a good beginning |
| BootRuns.ScheduleAndPersist | Core/Src/boot_control.c:366-393 | scheduling and persisting to the record not in use is a schedule event of the runs, at every content on the way |
| BootRuns.ConfirmAndPersist | Core/Src/boot_control.c:450-491 | likewise for a confirmation |
| BootRuns.StepKeepsGood | Core/Src/boot_target.c:92-160 | a boot, cut, failed write, schedule or confirmation keeps a readable valid record and the attempt account, and jumps only with justification |
| BootRuns.RunsStayGood | Core/Src/boot_control.c:366-491 | the same at every point of every run |
| BootRuns.UpdateIsTried | Core/Src/boot_target.c:31-161 | an update that may be scheduled is scheduled; it is the target of the next boots, up to three, as long as it is bootable, and from then on the confirmed image is started whenever it is bootable |
| BootRuns.ConfirmedIsStarted | Core/Src/boot_control.c:450-491 | a pending update that reports its identity is confirmed, and every later boot of a bootable image goes to it |
| BootRuns.ConfirmedStaysBootable | Core/Src/boot_image.c:170-177 | the raised minimum does not exclude the confirmed image itself |
| BootRuns.MinimumNeverFalls | Core/Src/boot_control.c:450-491 | the minimum security counter never decreases over any run |
| BootRuns.OnlyConfirmationConfirms | Core/Src/boot_control.c:450-491 | without a confirmation the confirmed slot, security and build do not change over any run |
| BootRuns.UnconfirmedJumpsBounded | Core/Src/boot_control.c:395-448 | an update that stays unconfirmed is jumped to at most three times over any run |
| EventLog.MakeRecord | Core/Src/app_log.c:332-399 | a packed record is valid and carries all its fields |
| EventLog.SequenceOrder | Core/Src/app_log.c:124-128 | within a ring the signed comparison orders by age, also across the wrap that skips 0 |
| EventLog.PushedAllIsSuffix | Core/Src/app_log.c:332-399 | pushing keeps exactly the last 64 of everything pushed |
| EventLog.CutHolds | Core/Src/app_log.c:168-203 | after each of the nine word stores the memory holds the old log, the old log less the record giving way, or the new log |
| EventLog.RecoveryRebuilds | Core/Src/app_log.c:205-292 | recovery rebuilds head, tail, count and next number from the slots alone, older records outside the ring notwithstanding |
| EventLog.CutIsRecovered | Core/Src/app_log.c:168-292 | from every cut between stores recovery finds that log, and the result is recoverable again |
| EventLog.AlignedRecovers | Core/Src/app_log.c:205-292 | from any slots whose numbers belong to their places, recovery builds a ring that holds the newest unbroken run, with no record that would continue it backwards |
| EventLog.ClearCutIsRecovered | Core/Src/app_log.c:146-166 | from every cut between the 512 word stores of a clear recovery finds the newest unbroken run of what is left, recoverable again |
| EventLog.RecoveredAreIntact | Core/Src/app_log.c:205-292 | from any memory whatever recovery takes up only records with magic, marker and matching checksum |
| EventLog.CorruptedIsDropped | Core/Src/app_log.c:205-292 | a record changed in any word, as far as the checksum shows it, is never taken up again |
| EventLogClear.ClearCutsAreParts | Core/Src/app_log.c:146-166 | every cut of a clear leaves a contiguous part of the log, exactly if every valid record outside the log has one of the log in a later slot |
| EventLogClear.InterruptedClearsBringBack | Core/Src/app_log.c:582-600 | from every full ring with its head at 2..63, a clear cut just before the newest record leaves it alone, and a second one, cut before the last slot, recovers an older record that the log no longer had |
| EventLogLives.MachineHoldsShelf | Core/Src/app_log.c:205-399 | over every life of pushes, clears and power failures inside either, recovery by sequence numbers and checksums holds exactly the unbroken row of records before the head of a shelf on which records come and go by place |
| EventLogLives.EventsMoveLog | Core/Src/app_log.c:332-399 | after every life: an entry is appended with the next number, a cut costs at most the record giving way, a clear empties the log |
| EventLogLives.CutClearsLeaveParts | Core/Src/app_log.c:582-600 | after every life, every cut clear leaves a contiguous part of the log exactly if every record on the shelf outside the log stands before one of the log |
| EventLogLives.LostRecordReturnsInLife | Core/Src/app_log.c:582-600 | after every life with a full log and its head at 2..63, two cut clears in a row bring back a record the log had lost |
| EventLogStore.EventLogStore.ScanNewest | Core/Src/app_log.c:215-236 | the scan finds the slot the specification settles on |
| EventLogStore.EventLogStore.Recover | Core/Src/app_log.c:205-292 | the object's indices after recovery are those rebuilt; storage is cleared if nothing is valid |
| EventLogStore.EventLogStore.Init | Core/Src/app_log.c:294-316 | the indices after a reset over any memory; if the memory holds a log, that is the log again |
| EventLogStore.EventLogStore.CommitRecord | Core/Src/app_log.c:168-203 | the stores write exactly one slot, and the contents between them are the specified nine |
| EventLogStore.EventLogStore.Push | Core/Src/app_log.c:332-399 | a push appends the stamped record to the list, or is refused and changes nothing |
| EventLogStore.EventLogStore.ReadOldest | Core/Src/app_log.c:412-437 | the record of that age, for every age |
| EventLogStore.EventLogStore.ReadBySequence | Core/Src/app_log.c:439-468 | the one record of that number, exactly if it is in the log |
| EventLogStore.EventLogStore.GetLatest | Core/Src/app_log.c:470-495 | the newest record, exactly if there is one |
| EventLogStore.EventLogStore.GetInfo | Core/Src/app_log.c:515-550 | count, oldest and latest numbers of the list |
| EventLogStore.EventLogStore.Clear | Core/Src/app_log.c:582-600 | the list is empty and numbering starts over; every content on the way is recoverable |
| EventLogStore.EventLogStore.ClearRetainedStorage | Core/Src/app_log.c:146-166 | the stores go through exactly the specified contents |
| TxQueue.SubmitKeeps | Core/Src/can_transport.c:220-296 | a submission keeps order, newest payloads and the balance; an accepted message ends the list of accepted ones, a refused one changes nothing |
| TxQueue.SubmissionIsExact | Core/Src/can_transport.c:112-296 | sent exactly if nothing waits and the hardware takes it; refused exactly if sixteen wait, none for its key, and it is not high-priority with a replaceable one to give way; otherwise queued |
| TxQueue.QueuedIsExact | Core/Src/can_transport.c:112-218 | a queued message takes the place of the one with its key, or stands behind those of its priority; only a high-priority one in a full queue evicts, and then the replaceable one nearest the back |
| TxQueue.DrainIsExact | Core/Src/can_transport.c:359-394 | draining n messages hands over the first n that wait, high priority first, and nothing else |
| TxQueue.SendHeadKeeps | Core/Src/can_transport.c:359-394 | so does handing the front message to the hardware |
| TxQueue.EveryHistoryIsKept | Core/Src/can_transport.c:112-394 | over every history: high-priority and plain messages leave in submission order with none missing; a replaceable message waits with, and was sent with, the newest payload accepted for its key so far; payloads of a key are sent in the order of their acceptance, none twice; enqueued = sent + evicted + pending |
| TxQueue.NewestIsNeverLost | Core/Src/can_transport.c:201-296 | over every history without an eviction the newest payload accepted for each key is sent or waits |
| CanTransport.CanTransport.EnqueueMessage | Core/Src/can_transport.c:112-199 | the shifted array does what the two FIFOs do, including eviction and refusal |
| CanTransport.CanTransport.ShiftDown | Core/Src/can_transport.c:146-153 | the loop removes exactly one entry and keeps the order of the others |
| CanTransport.CanTransport.ShiftUpAndPut | Core/Src/can_transport.c:168-176 | the loop inserts exactly one entry and keeps the order of the others |
| CanTransport.CanTransport.FindPending | Core/Src/can_transport.c:201-218 | the array search finds the entry the FIFO search finds |
| CanTransport.CanTransport.Send | Core/Src/can_transport.c:220-296 | a submission is the specified one for every answer of the hardware, what it takes is the message submitted, identifier and initialisation are checked, and it is refused or sent exactly under those conditions |
| CanTransport.CanTransport.Process | Core/Src/can_transport.c:359-394 | exactly as many messages as the hardware has room for leave from the front, and reach it in order |
| CanTransport.CanTransport.Balance | Core/Src/can_transport.c:396-404 | enqueued = sent from queue + evicted + pending, in the 32-bit counters |
| UdsDownload.StepKeepsTrack | Core/Src/uds_download.c:184-361 | every request keeps header plus written bytes equal to what has been accepted, and writes gap-free from behind the header |
| UdsDownload.FinalizedIsWhole | Core/Src/uds_download.c:331-361 | on finalize, header and writes are all accepted bytes, covering exactly [slot + 1024, slot + size) of the slot not running |
| UdsDownload.WritesStayInside | Core/Src/uds_download.c:291-317 | of a gap-free list of writes none reaches below its start or beyond its end |
| UdsDownload.CallsStayInside | Core/Src/uds_download.c:85-361 | every call a request makes to the backend, refused ones included: only the other slot is erased, written in [slot + 1024, slot + artifact size) and finalized |
| UdsDownload.AllBlocksArrive | Core/Src/uds_download.c:239-329 | any split into blocks, each resent any number of times, block numbers wrapping at 256, is accepted as the concatenation |
| UdsDownload.ArtifactIsFinalized | Core/Src/uds_download.c:239-361 | after the last block the exit is accepted and what is finalized is the artifact |
| UdsServer.ServeKeeps | Core/Src/uds_server.c:409-484 | exactly one counted answer within the capacity, unless the buffer is too small |
| UdsServer.EveryRunIsKept | Core/Src/uds_server.c:102-146 | over every interleaving of requests and ticks: a download not idle implies the programming session, the timer runs exactly outside the default session, and the counts balance |
| UdsServer.EveryRunFromStart | Core/Src/uds_server.c:392-505 | the same from the initial state on, together with the account of the download over every sequence of requests, aborts and timeouts |
| UdsServer.EveryFinalizeIsWhole | Core/Src/uds_download.c:331-361 | wherever such a run finalizes a download, header and writes are all accepted bytes, gap-free behind the header of the slot not running |
| UdsServer.EveryCallIsInside | Core/Src/uds_download.c:85-361 | in every run from the initial state, finalized or not, every call to the backend concerns the slot not running at the start, and every write lies behind the header and before the end of the artifact |
| UdsAuthority.EraseIsAuthorized | Core/Src/uds_download.c:106-132 | an erase is asked for only by an authorized start request from the idle state |
| UdsAuthority.OpenIsEarned | Core/Src/uds_download.c:85-182 | an open download goes on without an abort or begins with such an erase, and is ready only once the erase is done |
| UdsAuthority.WritesAreAuthorized | Core/Src/uds_download.c:85-361 | in every run: an erase comes of an authorized request in the programming session from idle, and every write and finalize belongs to a download begun by one, erased since, and open without abort or timeout until then |
| UdsAuthority.DenialIsAnswered | Core/Src/uds_download.c:108-112 | without authorization the start is answered 7F 31 33 and changes nothing |
| UdsAnswers.SessionIsExact | Core/Src/uds_server.c:58-147 | every change of session: answer bytes, suppression, timer, and what becomes of a download |
| UdsAnswers.SessionEnds | Core/Src/uds_server.c:486-505 | a session ends exactly 5 seconds after its last request |
| UdsAnswers.TesterIsExact | Core/Src/uds_server.c:149-208 | tester present: answer, suppression, refusal |
| UdsAnswers.OthersAreRefused | Core/Src/uds_server.c:409-484 | wrong lengths, unknown services and programming services outside their session, each with its code |
| UdsAnswers.IdentifiersAreAnswered | Core/Src/uds_server.c:210-316 | any identifiers, high byte first, are answered with all of them and their data in order, or refused as a whole |
| UdsAnswers.IdentifierRefused | Core/Src/uds_server.c:254-301 | which code an identifier that cannot be delivered is refused with |
| UdsAnswers.EraseIsExact | Core/Src/uds_download.c:56-182 | the erase routine: state, status byte, slot, address and size on the wire for every result, and every refusal |
| UdsAnswers.RequestIsExact | Core/Src/uds_download.c:184-237 | a download is accepted exactly for the erased slot and a fitting size in whole units, with blocks of up to 258 bytes |
| UdsAnswers.BlockIsExact | Core/Src/uds_download.c:239-329 | every block: taken in turn, acknowledged again, refused, or ending the download |
| UdsAnswers.ExitIsExact | Core/Src/uds_download.c:331-361 | the exit is accepted exactly when everything has been received and the finalize succeeds |
| UdsAnswers.DownloadFromNothing | Core/Src/uds_download.c:85-361 | every artifact of 1024 to 917504 bytes in whole units, from the erase through any split with any resends to a finalize of exactly it |
| UdsServer.InitialIsKept | Core/Src/uds_server.c:392-407 | the initial state has the invariant, and its counts balance |
| UdsServer.BalancedUnlessTooSmall | Core/Src/uds_server.c:35-56 | a request unbalances the counts exactly if its answer does not fit |
| UdsServer.SixBytesExactly | Core/Src/uds_server.c:35-56 | the counts stay balanced whatever is requested, exactly with a capacity of six bytes |
| UdsServer.TickKeeps | Core/Src/uds_server.c:486-505 | on a timeout the session is the default one, the timer stops and an open download is aborted once; otherwise nothing happens |
| UdsObjects.Downloader.ProcessRoutine | Core/Src/uds_download.c:85-182 | the object does what the value-level routine control says, every refusal included |
| UdsObjects.Downloader.ProcessRequestDownload | Core/Src/uds_download.c:184-237 | likewise for request download, header blanked |
| UdsObjects.Downloader.ProcessTransferData | Core/Src/uds_download.c:239-329 | likewise for transfer data, header filled in place |
| UdsObjects.Downloader.ProcessTransferExit | Core/Src/uds_download.c:331-361 | likewise for transfer exit |
| UdsObjects.Downloader.HandleRequest | Core/Src/uds_download.c:385-428 | dispatch of any request |
| UdsObjects.Downloader.AbortDownload | Core/Src/uds_download.c:430-450 | an open download is given up, any other forgotten |
| UdsObjects.ServerObject.ProcessSessionControl | Core/Src/uds_server.c:58-147 | session change, timer, abort and answer in the caller's buffer |
| UdsObjects.ServerObject.ProcessReadDid | Core/Src/uds_server.c:210-316 | the loop writes identifiers and data into the caller's buffer as it goes, never beyond it, and answers what the specification says |
| UdsObjects.ServerObject.ProcessProgramming | Core/Src/uds_server.c:318-390 | the composed download service and its answer |
| UdsObjects.ServerObject.ProcessRequest | Core/Src/uds_server.c:409-484 | a whole request: tick, refresh, dispatch, response bytes, calls and counts |
| UdsObjects.ServerObject.ServerTick | Core/Src/uds_server.c:486-505 | the object's tick is the specified one |
| StackEstimator.StackEstimator.EstimateFrom | scripts/stack_usage_report.py:179-237 | terminates on any graph; the result is the exact maximum over all call, tail-call, missing-frame and indirect-call paths with a path attaining it, whatever has been memoised |
| StackEstimator.StackEstimator.EstimateRoot | scripts/stack_usage_report.py:173-177 | refused exactly if the root is absent or recursion is reachable from it |
| StackEstimator.RecursionIsBelow | scripts/stack_usage_report.py:183-185 | recursion below a function is recursion below one of its callees, so a search that ends has met none |
| StackEstimator.CostIsPeak | scripts/stack_usage_report.py:194-233 | without negative entries the cost of a path is the highest the stack gets while calls push frames and tail calls replace them |
| StackEstimator.ExactIsUnique | scripts/stack_usage_report.py:180-182 | the number does not depend on memo contents or order |
| StackEstimator.Analyze | scripts/stack_usage_report.py:298-343 | an envelope exactly if priorities are distinct, every root can be estimated and no frame is dynamic; it is the main estimate plus one estimate and exception frame per interrupt |
| StackEstimator.EnvelopeBoundsEveryNest | scripts/stack_usage_report.py:325-328 | no nesting of interrupts by priority, anywhere in their code, uses more than the envelope |
| StackEstimator.EnvelopeIsExact | scripts/stack_usage_report.py:325-328 | the envelope bounds all nestings exactly if every interrupt has some path whose cost and exception frame are not negative together |
| StackEstimator.NonNegativeFramesSuffice | scripts/stack_usage_report.py:186-237 | frame sizes and reserves that are not negative suffice for that, whatever the graph and the contexts |
| StackEstimator.ReadRecords | scripts/stack_usage_report.py:69-100 | the table has every function recorded, with the largest of its records |
| StackEstimator.NegativeEntry | scripts/stack_usage_report.py:85-98 | an entry is negative exactly if all records of its function are |
| StackEstimator.NegativeFrameBreaksEnvelope | scripts/stack_usage_report.py:325-328 | records with a negative size, the table read from them, and a situation beyond its envelope |
| BusOffRecovery.StartFollowsStop | Core/Src/can_recovery.c:292-325 | in every history of driver calls a start or notification comes after a successful stop of the same cycle |
| BusOffRecovery.BookingBalances | Core/Src/can_recovery.c:213-237 | records plus suppressed stay equal to the events accounted for exactly if the snapshot is new or inside an episode |
| BusOffRecovery.LappedCounterIsMisbooked | Core/Src/can_recovery.c:171-199 | from every first read that opens the branch, a second read fewer than 2^32 events later books one record too many |
| BusOffRecovery.BookedCounts | Core/Src/can_recovery.c:213-237 | of m new events one is recorded and m - 1 suppressed, or inside an episode all m suppressed |
| BusOffRecovery.BookingDrifts | Core/Src/can_recovery.c:171-199 | every such case adds one, and nothing else goes wrong |
| BusOffRecovery.NoBusOffSince | Core/Src/can_recovery.c:253-262 | an unchanged bus-off counter means no bus-off since, unless 2^32 have passed |
| BusOffRecovery.Recovery.ErrorStatusInterrupt | Core/Src/can_recovery.c:98-119 | the interrupt may come at any point and keeps the whole invariant |
| BusOffRecovery.Recovery.LogErrorPassive | Core/Src/can_recovery.c:165-199 | the new account of error-passive events, and when it drifts |
| BusOffRecovery.Recovery.ObserveBusOff | Core/Src/can_recovery.c:203-250 | a new bus-off is booked once, cancels a verification and schedules an attempt 200 ms ahead |
| BusOffRecovery.Recovery.ConfirmIfVerified | Core/Src/can_recovery.c:252-276 | success only after a transmit completion following the re-enable and with no later observed bus-off |
| BusOffRecovery.Recovery.Attempt | Core/Src/can_recovery.c:289-330 | stop, start, notify from where the last attempt left off; verification begins exactly on success |
| BusOffRecovery.Recovery.HandleBusOffRecovery | Core/Src/can_recovery.c:161-330 | one pass with interrupts between any two reads keeps handled <= scheduled <= observed, the accounts, attempts 200 ms apart across tick wrap, call order and confirmed successes; an attempt is made whenever one is due |
| AckTiming.MicrosecondsAreExact | Core/Src/app_timing.c:67-83 | the conversion gives the least number of microseconds that covers the cycles, and 2^32 - 1 exactly if that does not fit |
| AckTiming.BinIsTrue | Core/Src/app_timing.c:203-212 | a latency is in a bin exactly if the cycles last longer than the bound below and no longer than its own |
| AckTiming.ReportIsTrue | Core/Src/app_timing.c:215-247 | a reported percentile is the bound of the bin in which the sample of the nearest rank lies, judged in cycles and clock rate |
| AckTiming.ReportBoundsNearestRank | Core/Src/app_timing.c:215-247 | a reported percentile is at least the true nearest-rank latency and in its bin; in the overflow bin it is the maximum |
| AckTiming.ReportsAreMonotone | Core/Src/app_timing.c:294-309 | a higher percentile is never reported lower |
| AckTiming.AckStats.BinsSumToSamples | Core/Src/app_timing.c:189-212 | the nine counters of the object add up to its sample count, modulo 2^32 and, below 2^32 samples, exactly |
| AckTiming.RankIsTakenOnce | Core/Src/app_timing.c:226-229 | the nearest-rank value that the report is compared with is unique |
| AckTiming.LongerIsNotShorter | Core/Src/app_timing.c:67-83 | the rounding, saturating conversion to microseconds is monotone |
| AckTiming.AckStats.Record | Core/Src/app_timing.c:177-213 | exactly one counter grows, that of the bin in which the elapsed cycles lie at the clock rate; extremes and counters follow the history |
| AckTiming.AckStats.Percentile | Core/Src/app_timing.c:215-247 | the cumulative loop stops in the bin the rank falls into |
| AckTiming.AckStats.Summary | Core/Src/app_timing.c:294-309 | p50 <= p95 <= p99, each the bound of the bin of its nearest-rank sample, judged in cycles and clock rate, for every history without counter overflow |
| RtcCalendar.NextDayIsNumberedNext | Core/Src/rtc_app.c:147-175 | the numbering of days follows the calendar rules of the driver |
| RtcCalendar.MonthLengths | Core/Src/pca2131.c:160-188 | the lengths of the months, February in every fourth year |
| RtcCalendar.NumberingFollowsCalendar | Core/Src/rtc_app.c:164-182 | date-times are numbered in calendar order, strictly |
| RtcCalendar.NumberingIsInRange | Core/Src/rtc_app.c:164-182 | every valid date-time has a number below 36525 days |
| RtcCalendar.EveryInstantIsNumbered | Core/Src/rtc_app.c:164-182 | every number in that range belongs to a valid date-time |
| RtcCalendar.NumberingIsInvertible | Core/Src/pca2131.c:169-266 | numbering and reading the calendar off the number is the identity on valid date-times |
| RtcCalendar.WriteCheckIsExact | Core/Src/rtc_app.c:184-239 | a valid reading is accepted exactly if within two hundredths of request plus elapsed time modulo the century, with the weekday advanced by the midnights passed |
| RtcCalendar.StoppedClockIsRefused | Core/Src/rtc_app.c:199-202 | an invalid calendar or a stopped oscillator is never accepted |
| RtcCalendar.TrueReadingIsAccepted | Core/Src/rtc_app.c:184-239 | what a running calendar shows is accepted, also across the end of 2099 |
| RtcCalendar.NearMidnightMayBeRefused | Core/Src/rtc_app.c:219-238 | a calendar off by up to two hundredths is accepted exactly if no midnight lies between what it shows and what is due |
| RtcCalendar.LastHundredthIsRefused | Core/Src/rtc_app.c:219-238 | the last hundredth of a day, still shown ten milliseconds after the request, is refused |
| DbcSignals.ValidateSignals | protocol/generate_dbc.py:52-192 | accepted exactly if every signal is faultless beside the ones before it and the multiplexing covers the frame; otherwise the first faulty signal and its first fault, or a requirement on the message that is not met |
| DbcSignals.FaultlessIsExact | protocol/generate_dbc.py:66-165 | a list is faultless exactly if every signal is right by itself and every two have different names, are not both multiplexors, and if they share a frame do not overlap, in whatever order |
| DbcSignals.RangeIsExact | protocol/generate_dbc.py:113-137 | a range is in order exactly if the factor is positive, the limits are not inverted, and every value between them has a raw value that the bits can hold |
| DbcSignals.FaultIsReal | protocol/generate_dbc.py:66-165 | the fault named is one that the signal has |
| DbcSignals.GroupsAreCommands | protocol/generate_dbc.py:167-192 | the groups of the command message are exactly the command codes, and without groups there is no multiplexor |
| DbcSignals.EveryBitHasOneOwner | protocol/generate_dbc.py:139-153 | in every multiplex group, or plain, each payload bit belongs to exactly one active signal |
| DbcSignals.MultiplexorSelects | protocol/generate_dbc.py:167-173 | there is one unsigned multiplexor, in every frame, that can take every multiplex value |
| DbcSignals.CountDecidesCoverage | protocol/generate_dbc.py:182-192 | counting the bits decides coverage |
| DbcSignals.OverlapIsFound | protocol/generate_dbc.py:139-153 | the gathered bit sets find an overlap exactly if two signals that share a frame overlap |

## Left out

- Hardware registers, caches, barriers, interrupt masking, startup and the flash, jump and CAN back ends: foreign calls, replaced by nondeterministic results.
- CRC-32 and CRC-16 computation: the checksum is a parameter and every statement holds for every one.
- Signature and digest verification and download authorisation: boolean parameters.
- Critical sections and cache cleaning of the event log: word stores are durable in program order.
- Boot_Jump_Execute: interrupt shutdown and the transfer of control itself.
- The queue health timer, receive statistics and secondary counters of CAN transport, adapter, UDS server and download: no property depends on them.
- Receive-side abort counters of the ISO-TP adapter: a failed overflow reply counts an abort without a reception, so nothing is conserved.
- DbcSignals.ValidateSignals: type and finiteness tests are left out, because signals come with their declared types; factors, offsets and limits are exact reals, so rounding of floats is not modelled.
- IsoTpChannel.Channel.Init: a configuration whose two buffers are the same memory is accepted, as in the source, and then nothing further is promised.
- The line formats of compiler and linker output, symbol normalisation and the rendering of paths in the stack report.
- RTC bus sequencing, BCD registers and alarms: device plumbing around the calendar.
- Liveness of bus-off recovery: repeated bus-offs may defer an attempt for ever by design.
- StackEstimator.Analyze: contexts are estimated in the order given, not sorted by priority; by ExactIsUnique the numbers are the same.
- BusOffRecovery.NoBusOffSince: equality of the bus-off counter is equality modulo 2^32, so 2^32 bus-offs between two reads would go unseen.
- AckTiming.AckStats.Percentile: after 2^32 samples the counters have wrapped and nothing is claimed of the percentiles.
- IsoTpDuplex.BothAreDelivered: each side starts one transfer, and a run that can go no further is judged only if both configurations are feasible.
- UdsServer.EveryRunIsKept: the counts are 32-bit and balance modulo 2^32.
