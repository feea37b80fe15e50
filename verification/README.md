# Verification of the vehicle firmware's transport and safety services

The firmware runs electronic control units of a vehicle on Zephyr. This project models, in Dafny,
the parts of its common code whose guarantees span several calls, and proves what holds of them
over whole runs:

- **J1939 transport** (`J1939`, `J1939Session`, `J1939RoundTrip`, `J1939Pacing`, `J1939Answers`,
  `J1939Node`): a sender that cuts a message into an RTS and numbered seven-byte packets, and a
  receiving session with one 1785-byte buffer, a size check, a deadline and abort codes.
- **ISO-TP** (`IsoTp`, `IsoTpReception`, `IsoTpTransfer`, `IsoTpAnswers`): segmentation with four-bit
  sequence numbers and flow control.
- **Protected memory** (`Regions`, `RegionTable`, `RegionRepair`, `RegionAnswers`, `MemoryProtection`):
  the region table, redundant pairs, and the pass that repairs one copy from the other.
- **Sensors** (`Sensor`, `SensorRuns`, `SensorVote`): validation of one channel against a ring of
  recent readings, its running statistics, and the two-out-of-three vote.
- **Diagnostics** (`Diag`, `DiagRuns`, `DiagAnswers`): UDS sessions, the key lockout and the active
  routine.
- **Runtime statistics** (`RuntimeStats`, `RuntimeStatsRuns`) and the **safety monitor** (`Asil`,
  `AsilRuns`, `AsilOutcomes`).

Each component has the same shape. One module gives the behaviour twice: as functions on values,
with the source's branches, constants and integer widths, and as a class or methods that update
state in place as the firmware does, proved to compute those functions. Further modules state what
holds of the functions over every run, and how each call is answered in the source's own numbers.
`Bits` and `Can` hold the fixed-width integers, the bitwise operators and the frame.

## How the surroundings are modelled

- Clocks are unbounded milliseconds since boot of which the code sees 32 bits (64 in the runtime
  statistics), so wrap-around is covered. Sending, sleeping and the time they take are oracles: a
  send succeeds or fails, a sleep lasts at least its argument.
- Frames are a sequence of any frames in any order. The bytes of a data packet that
  `j1939_send_tp_data` leaves uninitialised are arbitrary (`Filler`).
- A locked section is one atomic step. Floats are reals.
- The CRC, the expected security key, the services a session admits and the answers of handlers that
  are not shown are arbitrary functions. `verify_memory_region`, which is only declared, compares
  the region's CRC with the recorded one. `handle_memory_violation` is recorded and writes no
  modelled memory.

## Where the code and its intent differ

The model follows the code. These are results about it:

- `tp_session.start_time` is used at `common/can_protocol/j1939.c:86` and missing from the struct at
  `common/can_protocol/j1939.h:38-44`; the model has it.
- A 255-packet J1939 message (1779 to 1785 bytes), which the buffer is sized for, never arrives: the
  packet counter wraps to 0 (`NoTopSizeDelivery`, `DirectTransfer`), and the message after it is lost too
  (`TopSizeCostsTwo`). Abort reason 6 cannot occur and
  reason 5 only after that wrap (`AbortReasons`).
- With 50 ms between packets and 750 ms measured from the RTS, J1939 carries at most 112 bytes
  (`PacedDeliveries`, `ScheduledTransfer`); ISO-TP, with 10 ms and 1000 ms, at most 720.
- The ISO-TP type codes at `common/can_protocol/isotp.h:7-10` sit in the nibble the receiver does not
  test, and the sender numbers from 0 where the receiver expects 1. Both are parameters:
  `STANDARD` has the codes of section 9.6 of ISO 15765-2, `AS_WRITTEN` the source's. With the
  standard's codes a transfer works exactly when the first number is 1 (`StandardTransfer`); with the
  codes as written messages of 1 to 7 bytes arrive (`SingleTransfer`) and none of 8 or more does
  (`AsWrittenTransfer`).
- The first block of an ISO-TP transfer has 7 frames although 8 were granted (`FlowControls`).
- The sensor ring of 10 is indexed with a mask of 9. `Masked` is that, `Modulo` the evident intent;
  what each holds in every run is `RingHoldsRecent` and `MaskedBehaviour`, and when a reading is
  judged against the last accepted one, as intended, is `JudgedAgainstLast`.
- A sensor timeout cannot be recovered from without a reset (`TimeoutSticks`), and
  `handle_sensor_timeout` erases the timeout it has just counted (`HandleTimeout`). Timestamps have
  64 bits and the stamps kept of them 32: a reading taken at or after 2^32 ms is not judged against
  by its true age (`JudgedByTrueTime`), and the first such reading accepted as a reference is the last
  reading accepted (`StopsAfterTurn`).
- Recorded extremes start from 0 when the first reading since a reset is rejected
  (`ExtremesAttained`), and the average is lost for good at the 2^32nd valid reading
  (`RunningStatistics`).
- A J1939 session whose sender falls silent is ended by no clock (`SilentSessionStays`).
- A task name of 32 characters or more is stored cut and never found again (`TableIsMap` says
  exactly what that breaks).
- Starts and ends of a task both count as executions, so alternating calls never store a snapshot
  (`AlternatingStoresNothing`).
- The data of a routine is copied into 256 bytes with no check of its length, at
  `common/diagnostic/diag_service.c:146`. The length that follows the bytes in
  `common/diagnostic/diag_service.h:92-98` is written after them, so longer data comes back with bytes
  256 and 257 replaced, and what lies behind is overwritten (`ResultEchoesStart`, `OversizedStart`,
  `SlotFits`).
- A task's minimum execution time is forgotten at the first execution of 0 ms (`ExtremesOfTask`).
- Nothing in the source writes a control-flow checkpoint but the recovery that clears them all, so any
  nonzero expected value stops the monitor at once (`UntouchedStops`).
- The safety monitor's period exceeds the limit it checks (`AlwaysTooSlow`), and its retry path
  never runs (`EveryRun`, `DeviationStops`).
- A registered redundant pair can keep a copy that differs from what was registered when the CRC
  cannot tell them apart; `OneTrueCopyRestored` says exactly when it does not.

## Model

| member | source | states |
|---|---|---|
| J1939RoundTrip.PgnSurvivesId | common/can_protocol/j1939.c:25-27 | the group number the receiver reads out of an identifier is the sender's modulo 2^17, for every priority and address |
| J1939RoundTrip.RtsReadsBack | common/can_protocol/j1939.c:174-188 | the receiver reads the length, packet count and 24-bit group number that the RTS was built from |
| J1939RoundTrip.DtReadsBack | common/can_protocol/j1939.c:190-197 | data packet i carries number i + 1 and the message's bytes from 7i, whatever the padding |
| J1939Session.SizeCheck | common/can_protocol/j1939.c:67-75 | the RTS check accepts exactly sizes 1 to 1785 whose packet count is the size over 7, rounded up |
| J1939Session.StepKeepsInv | common/can_protocol/j1939.c:59-167 | every frame keeps the session invariant: packet count, counter and accepted payloads agree, and the buffer starts with those payloads |
| J1939Session.RunKeepsInv | common/can_protocol/j1939.c:215-255 | the session invariant holds after every stream of frames |
| J1939Session.AcceptedDt | common/can_protocol/j1939.c:120-166 | an awaited packet is appended to what was received; it completes, acknowledges and delivers exactly when it is the last and not number 255 |
| J1939Session.RejectedDt | common/can_protocol/j1939.c:98-127 | every other data frame closes the session with abort 3, 4 or 5, chosen in that order, and delivers nothing |
| J1939Session.ExhaustedSessionAborts | common/can_protocol/j1939.c:111-133 | once packet 255 is in, every data frame aborts the session |
| J1939Session.AbortReasons | common/can_protocol/j1939.c:111-142 | abort 6 is never sent; abort 5 exactly for a timely frame numbered 0 in a session whose counter wrapped |
| J1939Session.NoRunSendsReason6 | common/can_protocol/j1939.c:135-142 | no run from a valid state ever sends abort 6 |
| J1939Session.SilentSessionStays | common/can_protocol/j1939.c:59-65 | an open session whose sender falls silent stays open, however long, and every RTS is refused with reason 1, until a data frame, an acknowledgement or an abort comes |
| J1939Session.NoTopSizeDelivery | common/can_protocol/j1939.c:132-166 | in every run each delivered message has at most 254 packets, so a 255-packet session never delivers |
| J1939Session.OpenSessionComesFromTrace | common/can_protocol/j1939.c:59-167 | an open session stems from one RTS of the run, and holds exactly the data frames since, numbered from 1 and in time |
| J1939Session.DeliveryComesFromTrace | common/can_protocol/j1939.c:98-167 | soundness for any frames: a delivery is the in-order concatenation, cut to the announced size, of exactly the announced number of data frames since its RTS, numbered and in time |
| J1939RoundTrip.Progress | common/can_protocol/j1939.c:98-167 | while numbered frames come in time, amid any traffic that ends no session, the session stays open, collects them and delivers nothing |
| J1939RoundTrip.Completion | common/can_protocol/j1939.c:131-166 | completeness, the converse of DeliveryComesFromTrace: the last awaited frame delivers the payloads cut to size and closes the session |
| J1939RoundTrip.HandedToFirst | common/can_protocol/j1939.c:157-163 | the first handler registered for the group is called, exactly once, with the data |
| J1939RoundTrip.HandedToNobody | common/can_protocol/j1939.c:157-163 | without a handler for the group nobody is called |
| J1939RoundTrip.RoundTrip | common/can_protocol/j1939.c:25-255 | every message of 9 to 1778 bytes whose frames arrive in order and in time at an idle receiver, amid other traffic, is handed over exactly once, byte for byte, and the receiver is idle again |
| J1939RoundTrip.DirectTransfer | common/can_protocol/j1939.c:25-255 | for every length: delivered exactly up to 1778 bytes; 1779 to 1785 leave the session open without delivery; longer ones never open it |
| J1939RoundTrip.NextMessageLost | common/can_protocol/j1939.c:59-117 | while a session of 255 packets is left open, the next message's RTS is refused with reason 1, its first packet closes the session with reason 4, or 3 when late, and nothing is delivered |
| J1939RoundTrip.TopSizeCostsTwo | common/can_protocol/j1939.c:59-167 | so a message of 1779 to 1785 bytes sent to an idle receiver in time, and the one after it, are both lost, and only then is the receiver idle |
| J1939RoundTrip.ShortTransfer | common/can_protocol/j1939.c:169-213 | a message of at most 8 bytes travels in one frame to the first handler of its 17-bit group and leaves the session alone |
| J1939Answers.IdFields | common/can_protocol/j1939.c:25-27 | the low byte of an identifier is the source address, and above the group, below 2^18, stand the six low bits of the priority |
| J1939Answers.RtsBytes | common/can_protocol/j1939.c:176-185 | an RTS is a full frame of group 0xEC00, priority 3, from the sender: 0x10, the length low byte first, the packet count modulo 256, 0xFF and the three group bytes |
| J1939Answers.DtBytes | common/can_protocol/j1939.c:188-194 | data packet i is a full frame of group 0xEB00: its number and the message's bytes from 7i |
| J1939Answers.RtsAnswered | common/can_protocol/j1939.c:67-95 | an RTS at an idle receiver has exactly one answer: with a size of 1 to 1785 and the count that is the size over 7, rounded up, the session opens and bytes 0x11, the count, 1 and the group go out; otherwise nothing opens and an abort with reason 2 does |
| J1939Answers.BusyRefuses | common/can_protocol/j1939.c:60-65 | an RTS at a receiver in a session changes nothing and is answered by exactly one abort with reason 1 |
| J1939Answers.DataAnswered | common/can_protocol/j1939.c:98-153 | the answer to every data frame in a session: aborts 3, 4, 5 in that order of tests, nothing while packets are missing, and at the last an acknowledgement with size, count and group |
| J1939Answers.IdleDt | common/can_protocol/j1939.c:99-101 | a data frame at an idle receiver does nothing |
| J1939Answers.ClosingFrames | common/can_protocol/j1939.c:219-240 | an acknowledgement or an abort ends the session and is not answered; every other command but an RTS does nothing |
| J1939Answers.OtherGroups | common/can_protocol/j1939.c:248-254 | a frame of any other group leaves the session alone and goes to the group's first handler, as many bytes as it carries |
| J1939Pacing.PacedDeliveries | common/can_protocol/j1939.c:103-109 | with data frames at least 50 ms apart no run ever delivers more than 112 bytes |
| J1939Pacing.ScheduledTransfer | common/can_protocol/j1939.c:187-199 | on a zero-latency bus with exact sleeps a message of 9 bytes or more is delivered exactly when it has at most 112 bytes |
| J1939Node.Context.constructor | common/can_protocol/j1939.c:22-23 | a new context is idle, with no handlers and a buffer of its own |
| J1939Node.Context.RegisterHandler | common/can_protocol/j1939.c:47-57 | appends a handler, or fails with -ENOMEM and changes nothing when 32 are registered |
| J1939Node.Context.SendPgn | common/can_protocol/j1939.c:204-213 | hands exactly one frame to the device, which puts it on the bus or reports why not |
| J1939Node.Context.SendTpData | common/can_protocol/j1939.c:169-202 | gives the device the message's frames in order until one fails, whose error is returned; the ones before it are on the bus, all of them exactly when 0 is returned, with data packets at least 50 ms apart |
| J1939Node.Context.SendPacketed | common/can_protocol/j1939.c:174-201 | the same for a message of more than 8 bytes: the RTS, then the packets |
| J1939Node.Context.SendRts | common/can_protocol/j1939.c:176-185 | gives the device the RTS |
| J1939Node.Context.SendPackets | common/can_protocol/j1939.c:187-199 | the packet loop gives the device the data frames in order until one fails, and puts those before it on the bus, spaced |
| J1939Node.Context.FindHandler | common/can_protocol/j1939.c:157-163 | calls the first handler of the group, or none |
| J1939Node.Context.HandleTpRts | common/can_protocol/j1939.c:59-96 | opens a session or answers with an abort, as HandleRts says, and leaves the buffer alone |
| J1939Node.Context.OpenSession | common/can_protocol/j1939.c:79-86 | a new session: expecting packet 1, started now, nothing received |
| J1939Node.Context.HandleTpDt | common/can_protocol/j1939.c:98-167 | takes the step HandleDt says, writing only inside the buffer |
| J1939Node.Context.TakePacket | common/can_protocol/j1939.c:120-132 | copies the packet into the buffer at its place and advances the 8-bit counter |
| J1939Node.Context.DeliverMessage | common/can_protocol/j1939.c:144-166 | acknowledges, hands the first total-size bytes to the first handler of the group, closes the session |
| J1939Node.Context.ProcessMessage | common/can_protocol/j1939.c:215-255 | every received frame takes exactly the step Process says, in session, buffer, answers and calls |
| IsoTpReception.CollectExactly | common/can_protocol/isotp.c:126-166 | the loop succeeds exactly when every missing frame comes in time and in sequence and every flow control goes out, and has then written the payloads in order, cut to the length |
| IsoTpTransfer.ReceivesExactly | common/can_protocol/isotp.c:76-166 | a multi-frame reception of any frames returns the announced length exactly when it is 8 to the room and frame c carries c mod 16 in time; the destination is then the in-order concatenation cut to that length |
| IsoTpTransfer.FlowControls | common/can_protocol/isotp.c:154-163 | over n consecutive frames n/8 more flow controls follow the first, after frames 7, 15, 23 and so on, never after the last, each granting at most 8 of those left |
| IsoTpTransfer.FirstFrameReadsBack | common/can_protocol/isotp.c:56-62 | with the standard's code the receiver reads the length modulo 4096 and the first 6 bytes |
| IsoTpTransfer.ConsecutiveReadsBack | common/can_protocol/isotp.c:27-29 | with the standard's code consecutive frame k carries its number modulo 16 and its 7 bytes |
| IsoTpTransfer.StandardTransfer | common/can_protocol/isotp.c:21-170 | when exactly the frames isotp_send hands over for a message of 8 bytes or more come in time, with the standard's codes and an identifier the receiver takes, it is rebuilt exactly when the sender counts from 1, its length modulo 4096 is at least 8 and there is room; what arrives is that much of it, all of it up to 4095 bytes |
| IsoTpTransfer.SingleTransfer | common/can_protocol/isotp.c:45-53 | with the standard's codes, and with those as written, 1 to 7 bytes arrive in one frame, and an empty message or too little room is the matching error |
| IsoTpTransfer.AsWrittenTransfer | common/can_protocol/isotp.h:7-10 | with the codes as written every first frame is taken for a single frame: an error or at most 7, never the length |
| IsoTpTransfer.AsWrittenReception | common/can_protocol/isotp.c:90-110 | with the codes as written no frames at all, a standard sender's included, make the receiver return more than 7 or send a flow control |
| IsoTpTransfer.PacedReception | common/can_protocol/isotp.c:128-136 | at the sender's 10 ms separation no reception of any frames returns more than 720 bytes |
| IsoTpTransfer.ScheduledTransfer | common/can_protocol/isotp.c:68-71 | on a zero-latency bus with exact sleeps and the standard's numbering a message of 8 bytes or more is received exactly when it has at most 720 bytes and there is room |
| IsoTpAnswers.FramesOfMessage | common/can_protocol/isotp.c:37-74 | every frame of a message carries the sender's identifier, and a single frame's length says how much it holds; there are as many as the length takes |
| IsoTpAnswers.SingleBytes | common/can_protocol/isotp.c:47-52 | the bytes of a single frame with the standard's codes: length, data, zeros |
| IsoTpAnswers.FirstBytes | common/can_protocol/isotp.c:56-62 | the bytes of a first frame with the standard's codes: type 1, the length in 12 bits, six bytes |
| IsoTpAnswers.ConsecutiveBytes | common/can_protocol/isotp.c:21-34 | the bytes of consecutive frame k with the standard's codes: type 2, its number modulo 16, its seven bytes, zeros after the last |
| IsoTpAnswers.FlowBytes | common/can_protocol/isotp.c:115-119 | a flow control is its code, the frames granted and 10 ms |
| IsoTpAnswers.NotReceived | common/can_protocol/isotp.c:82-88 | no frame ends a reception with -ETIMEDOUT, and one for another receiver with -EINVAL; nothing is written or sent |
| IsoTpAnswers.TakenBits | common/can_protocol/isotp.c:86-88 | a frame is for the receiver exactly when its identifier has every bit of the receiver's |
| IsoTpAnswers.SingleReceived | common/can_protocol/isotp.c:90-101 | any single frame: 1 to 7 bytes if there is room, else -EMSGSIZE or -ENOSPC |
| IsoTpAnswers.OtherRefused | common/can_protocol/isotp.c:169 | a first frame of any other type is refused with -EINVAL |
| IsoTpAnswers.FirstRefused | common/can_protocol/isotp.c:103-124 | an announced length below 8 or above the room is refused with -EMSGSIZE, and a failing flow control's error is returned after six bytes |
| IsoTpAnswers.ReceptionBreaks | common/can_protocol/isotp.c:126-152 | a reception breaks off at the first consecutive frame missing or late, with -ETIMEDOUT, or not the one awaited, with -EINVAL; it has then written exactly the payloads before it and sent the flow controls due until then |
| IsoTpAnswers.ReceptionBlocked | common/can_protocol/isotp.c:154-163 | the error of the first flow control that does not go out is returned, with exactly the payloads before it written |
| IsoTp.TxContext.SendConsecutive | common/can_protocol/isotp.c:21-35 | sends consecutive frame k of the message and advances to frame k + 1 |
| IsoTp.Send | common/can_protocol/isotp.c:37-74 | offers exactly the message's frames, in order, to the device; a multi-frame send reports 0 whatever the device said |
| IsoTp.ReceiveInto | common/can_protocol/isotp.c:76-170 | returns, sends and writes what Receive says, and changes nothing beyond what it wrote |
| IsoTp.CollectInto | common/can_protocol/isotp.c:126-166 | the loop writes, sends and returns what Collect says |
| IsoTp.CopyPayload | common/can_protocol/isotp.c:147-148 | copies the frame's bytes to the offset and changes nothing else |
| RegionTable.ProtectKeepsTable | common/safety/memory_protection.c:87-129 | registration keeps the table aligned, disjoint, bounded and paired; it appends one entry or changes nothing |
| RegionTable.RedundantKeepsTable | common/safety/memory_protection.c:140-170 | a redundant setup succeeds exactly when both copies fit, appending the mutually pointing pair; a failed one leaves at most one new unpaired region |
| RegionTable.StackKeepsTable | common/safety/memory_protection.c:131-138 | stack guards keep the table's invariant, failing or not |
| RegionTable.EveryTable | common/safety/memory_protection.c:74-170 | after every sequence of registrations regions are page-aligned, pairwise disjoint and at most 16, and redundant entries form adjacent, equal-sized, mutually pointing pairs |
| RegionTable.TableOnlyGrows | common/safety/memory_protection.c:87-170 | an entry once registered never changes: later registrations, failing or not, only append |
| RegionAnswers.OverlapShares | common/safety/memory_protection.c:78-85 | two nonempty regions overlap exactly when they have a byte in common |
| RegionAnswers.ProtectAnswered | common/safety/memory_protection.c:87-129 | every answer of a registration: -5 when misaligned, else -2 when full, else -4 on an overlap, changing nothing, else 0 with the region appended, its CRC that of its bytes |
| RegionAnswers.StackAnswered | common/safety/memory_protection.c:131-138 | a stack gets a page without access at its low end and, only if that was registered, one at its high end; the code is that of the first refused |
| RegionAnswers.RedundantAnswered | common/safety/memory_protection.c:140-170 | every answer of a redundant setup: -2 without two free entries, else the refusal of the first copy refused, else the pair |
| RegionRepair.PassRepairsPair | common/safety/memory_protection.c:196-240 | after one pass both copies hold what the primary held if its CRC was right, otherwise what the secondary held if its CRC was, otherwise both are unchanged |
| RegionRepair.PassKeepsTheRest | common/safety/memory_protection.c:213-236 | a pass changes no byte outside the redundant copies |
| RegionRepair.PassKeepsPlain | common/safety/memory_protection.c:213-236 | a pass leaves every region that is not redundant as it was |
| RegionRepair.SetupRegistersEqual | common/safety/memory_protection.c:140-170 | a pair registered with equal contents records one CRC for both copies |
| RegionRepair.OneGoodCopyIsEnough | common/safety/memory_protection.c:196-240 | with at least one copy matching the recorded CRC, one pass leaves both equal with that CRC |
| RegionRepair.RegisteredPairRepaired | common/safety/memory_protection.c:140-240 | a pair registered with equal contents at any point of any run of registrations is repaired by one pass over whatever memory has become, while a copy has the CRC of what was registered |
| RegionRepair.OneTrueCopyRestored | common/safety/memory_protection.c:196-240 | with one copy still as registered, one pass restores it in both exactly when the primary is that copy or the CRC tells the primary apart |
| RegionRepair.PassIsIdempotent | common/safety/memory_protection.c:196-240 | a second pass changes nothing |
| RegionRepair.PassDetects | common/safety/memory_protection.c:199-236 | a pass reports no violation exactly when every active region has its CRC and equals the copy it points to |
| RegionAnswers.EntryReports | common/safety/memory_protection.c:199-224 | the check of one region reports its start once, exactly when it is not sound |
| RegionAnswers.FirstReport | common/safety/memory_protection.c:199-224 | the first report of a pass is the first region that is not sound |
| RegionAnswers.ReportsAreStarts | common/safety/memory_protection.c:199-224 | a pass reports at most one violation an entry, each the start of one |
| RegionAnswers.PlainReported | common/safety/memory_protection.c:205-211 | a region that is not redundant is reported whenever its CRC is wrong before the pass |
| RegionRepair.RepairedMemoryIsQuiet | common/safety/memory_protection.c:205-224 | when plain regions are intact and every pair has a good copy, the next pass reports no violation |
| MemoryProtection.Memory.ProtectRegion | common/safety/memory_protection.c:87-129 | registers the region or reports misalignment, a full table or an overlap, checked in that order |
| MemoryProtection.Memory.SetupStack | common/safety/memory_protection.c:131-138 | registers a guard page at each end, the upper only after the lower |
| MemoryProtection.Memory.SetupRedundantMemory | common/safety/memory_protection.c:140-170 | registers both copies and makes them a pair, as SetupRedundant says |
| MemoryProtection.Memory.VerifyRedundant | common/safety/memory_protection.c:172-174 | true exactly when the copies are equal |
| MemoryProtection.Memory.CheckEntry | common/safety/memory_protection.c:199-236 | the loop body changes memory and reports as CheckRegion says; the branch that restores the primary from its copy is dead |
| MemoryProtection.Memory.PeriodicCheck | common/safety/memory_protection.c:196-240 | one pass over the table in place, as CheckPass says |
| SensorRuns.RunningStatistics | common/sensor_utils/sensor_validation.c:46-88 | in every run, since the last reset: each counter is the number of readings of its kind modulo 2^32, the average times the valid readings is the sum of the values returned until 2^32 of them have made it not a number, the success rate is the percentage the counters show, and the extremes are attained among the values they range over |
| SensorRuns.CountersAddUp | common/sensor_utils/sensor_validation.c:53-81 | for fewer than 2^32 readings since the reset the total is valid + range + rate + timeout counts |
| SensorRuns.ExtremesAttained | common/sensor_utils/sensor_validation.c:57-63 | a recorded extreme is the least, or greatest, value returned exactly when the first reading was accepted or a value returned reaches 0 from that side |
| SensorRuns.LastErrorKept | common/sensor_utils/sensor_validation.c:81 | the time kept is that of the last rejected reading since the reset |
| SensorRuns.ResultOf | common/sensor_utils/sensor_validation.c:174-220 | a result is valid exactly without an error code; a rejected reading returns no value and leaves the ring alone |
| SensorRuns.RingHoldsRecent | common/sensor_utils/sensor_validation.c:221-224 | with indices modulo 10 the ring holds the last ten accepted readings, in every run |
| SensorRuns.FilterIsMovingMean | common/sensor_utils/sensor_validation.c:226-242 | with indices modulo 10 the filtered value is the mean of the last five accepted readings, or of all while fewer, those stamped 0 passed over |
| SensorRuns.RecentAllStamped | common/sensor_utils/sensor_validation.c:230-236 | without stamps of 0 none of them is passed over |
| SensorRuns.FilteredWithinRange | common/sensor_utils/sensor_validation.c:182-242 | under one range every value returned as valid lies in it, in every run, however the ring is indexed |
| SensorRuns.JudgedAgainst | common/sensor_utils/sensor_validation.c:182-219 | in every run, with either indexing, the verdict on any reading: range error, else success when there is no stamped reference, else rate error, timeout or success against the reference; the reference is the last accepted reading, and with the mask there is none after an even number of them |
| SensorRuns.JudgedAgainstLast | common/sensor_utils/sensor_validation.c:192-219 | every reading is judged against the last accepted one: always with indices modulo 10, with the mask exactly while the number accepted is odd or the last accepted has no stamp |
| SensorRuns.MaskedBehaviour | common/sensor_utils/sensor_validation.c:192-242 | with the mask as written the index is the parity of the accepted readings, the filter returns the raw value, and a reading is accepted exactly when it is in range and, after an odd number of accepted ones, passes the rate and timeout checks against the last of them |
| SensorRuns.TimeoutSticks | common/sensor_utils/sensor_validation.c:210-219 | whatever the run before, resets and other parameters included, once a reading not earlier than those before it is rejected for timeout, every later one, under timeouts no longer, is rejected until a reset |
| SensorRuns.JudgedByTrueTime | common/sensor_utils/sensor_validation.c:196-223 | readings are judged by the true time since their reference exactly when that was taken after 0 and before 2^32 ms |
| SensorRuns.LateReading | common/sensor_utils/sensor_validation.c:196-223 | a reading is rejected whatever its value and parameters exactly when it has a stamped reference and comes 2^32 ms or more after that stamp |
| SensorRuns.LateReadingsStop | common/sensor_utils/sensor_validation.c:196-223 | while only such readings come every one is rejected, whatever its parameters, until a reset |
| SensorRuns.StopsAfterTurn | common/sensor_utils/sensor_validation.c:196-223 | once a reading with a nonzero stamp is accepted at or after 2^32 ms, with indices modulo 10, or with the mask after an even number accepted, no reading that is not earlier is accepted until a reset, whatever its parameters |
| Sensor.SensorChannel.UpdateStatistics | common/sensor_utils/sensor_validation.c:46-88 | counts one reading of the given kind, as Record says, and leaves the ring alone |
| Sensor.SensorChannel.Reset | common/sensor_utils/sensor_validation.c:107-116 | the channel is fresh again |
| Sensor.SensorChannel.HandleTimeout | common/sensor_utils/sensor_validation.c:118-122 | the channel is fresh again: the timeout just counted is erased |
| Sensor.SensorChannel.ValidateReading | common/sensor_utils/sensor_validation.c:174-248 | range, rate and timeout checks in that order, ring, filter and statistics, as Validate says |
| Sensor.SensorChannel.RecentWindow | common/sensor_utils/sensor_validation.c:226-236 | the summing loop computes the sum and number of the stamped slots in the window |
| SensorVote.VoteSucceeds | common/sensor_utils/sensor_validation.c:124-172 | the vote succeeds exactly on fresh, valid readings of which two agree, and leaves all three in pairwise agreement; a failure only marks them invalid |
| SensorVote.VoteCorrects | common/sensor_utils/sensor_validation.c:143-165 | the first pair that agrees stays, and the reading outside it becomes its mean; nothing changes when all agree |
| SensorVote.ValueRead | common/sensor_utils/sensor_validation.c:250-271 | the value read is the mean of the first pair that agrees, and 0 without one, which also marks the readings invalid |
| SensorVote.Limits | common/sensor_utils/sensor_validation.c:130-141 | readings agree within 0.2 and are fresh for a second by the 32-bit clock |
| SensorVote.VoteAccuracy | common/sensor_utils/sensor_validation.c:124-271 | if two of three fresh, valid readings are within half the tolerance of v, the vote succeeds and the value then read is within 1.25 tolerances of v |
| SensorVote.VoteBoundAttained | common/sensor_utils/sensor_validation.c:148-159 | the bound of 1.25 tolerances is attained |
| SensorVote.VoteIsStable | common/sensor_utils/sensor_validation.c:143-165 | a second vote after a successful one, still in time, changes nothing |
| SensorVote.Triple.ValidateReadings | common/sensor_utils/sensor_validation.c:124-172 | updates the readings and answers as VoteOn says |
| SensorVote.Triple.GetValue | common/sensor_utils/sensor_validation.c:250-271 | returns the mean of the first agreeing pair, or 0 and marks the readings invalid, as ValueOf says |
| DiagRuns.LockoutPacing | common/diagnostic/diag_service.c:106-134 | over any run without a success, session changes interleaved and the clock wrapping, n wrong-key evaluations span at least 10000 ms times (n - 1) / 3, rounded down |
| DiagRuns.LockoutHolds | common/diagnostic/diag_service.c:111-118 | while a lockout lasts no request of any kind changes or extends it |
| DiagRuns.KeyAnswers | common/diagnostic/diag_service.c:106-134 | how a key request is answered, from the run's wrong keys alone: refused, changing nothing, exactly when a positive multiple of three wrong keys came since the last accepted one, the last less than 10 s ago by the clock; otherwise accepted exactly when it is the key expected after the last wrong one |
| DiagRuns.SecurityState | common/diagnostic/diag_service.c:111-128 | in every run the attempt counter is the number of wrong keys since the last accepted one, counted from 1 to 3 and again, and the time kept is that of the last wrong key |
| DiagRuns.LevelComesFromKey | common/diagnostic/diag_service.c:64-79 | a security level is only ever held from an accepted key for it with no session change since |
| DiagRuns.ProgrammingLeavesByDefault | common/diagnostic/diag_service.c:43-62 | from the programming session the extended and safety sessions are reached only through the default session |
| DiagAnswers.SessionAnswers | common/diagnostic/diag_service.c:43-79 | the answer to every session request: 0x12 for none of the four, 0x22 for a change that is not one of nine, both changing nothing, else the session entered and the level dropped |
| DiagRuns.RoutineExclusion | common/diagnostic/diag_service.c:136-196 | between two accepted routine starts there is an accepted stop naming the first one's routine, even when that start was answered with an error for an unknown id |
| DiagAnswers.StartAnswered | common/diagnostic/diag_service.c:136-164 | a start is accepted exactly when the slot is free, and takes it, answered by the routine or, for an unknown id, with 0x12; otherwise it is refused with 0x22 and changes nothing |
| DiagAnswers.StopAnswered | common/diagnostic/diag_service.c:171-179 | a stop naming the slot's routine is answered with OK and frees the slot; any other is refused with 0x22 and changes nothing |
| DiagAnswers.OtherControls | common/diagnostic/diag_service.c:181-195 | a result changes nothing, and no other control is known |
| DiagAnswers.SlotOfRun | common/diagnostic/diag_service.c:136-179 | over a run from the start the slot is taken exactly when some accepted start has had no accepted stop since, and a start is then refused with 0x22, and accepted otherwise |
| DiagRuns.ResultEchoesStart | common/diagnostic/diag_service.c:136-191 | until then a result request for that routine returns as many bytes as the start carried, with bytes 256 and 257 replaced by the length, which is the start's data exactly when that has at most 256 bytes or those two happen to be the length's; one for another routine is refused |
| DiagRuns.OversizedStart | common/diagnostic/diag_service.c:146-147 | a start with 300 zero bytes is accepted and its result has 0x2C at byte 256 |
| DiagRuns.SlotFits | common/diagnostic/diag_service.c:136-150 | the slot's data stays within its 256 bytes throughout a run exactly when every start that takes the slot carries no more |
| DiagRuns.RunKeepsReachable | common/diagnostic/diag_service.c:64-134 | at most three attempts are ever counted and the session is always one of the four |
| DiagAnswers.Refused | common/diagnostic/diag_service.c:229-281 | a service the session does not admit, or that is unknown, is answered with 0x11, and one with too little data with 0x13, changing nothing |
| DiagAnswers.Effects | common/diagnostic/diag_service.c:229-282 | which service may change which part of the state, and that only a routine's result carries data |
| DiagAnswers.OtherServices | common/diagnostic/diag_service.c:242-278 | the answers of the services that change nothing here |
| DiagAnswers.DtcSetting | common/diagnostic/diag_service.c:198-203 | the recording of trouble codes is as the last request that set it says, and on before the first |
| DiagAnswers.LittleEndian | common/diagnostic/diag_service.c:240-256 | numbers in a request have their low byte first |
| Diag.Server.StartDiagnosticSession | common/diagnostic/diag_service.c:64-79 | enters an admitted session and drops the security level, or refuses and changes nothing |
| Diag.Server.VerifySecurityAccess | common/diagnostic/diag_service.c:106-134 | evaluates a key or refuses it for the lockout, as VerifySecurity says |
| Diag.Server.HandleRoutineStart | common/diagnostic/diag_service.c:136-164 | takes a free slot before the id is looked at, and refuses a taken one, whatever the length of the data |
| Diag.Server.StoreRoutineData | common/diagnostic/diag_service.c:146-147 | the unchecked copy followed by the length leaves what Stored says, for every length a request can have |
| Diag.Server.ExecuteRoutineControl | common/diagnostic/diag_service.c:166-196 | start, stop and result of the active routine, as ExecuteRoutine says |
| Diag.Server.ProcessRequest | common/diagnostic/diag_service.c:229-282 | checks session, then length, then dispatches, as Process says |
| RuntimeStatsRuns.EveryTaskConsistent | common/safety/runtime_stats.c:88-131 | in every order of calls minimum and moving average stay at or below the maximum, in the current figures and in every snapshot |
| RuntimeStatsRuns.HistoryAlwaysVerified | common/safety/runtime_stats.c:203-231 | so the history check is true in every reachable state |
| RuntimeStatsRuns.HistoryFaults | common/safety/runtime_stats.c:208-224 | of any table, the check fails exactly when the first entry of the name holds a snapshot of at least one execution whose minimum is above its maximum |
| RuntimeStatsRuns.TrendWarns | common/safety/runtime_stats.c:148-174 | the warning fires exactly when at least five slots have an average more than a fifth above a nonzero one in the slot before |
| RuntimeStatsRuns.TotalsOfTask | common/safety/runtime_stats.c:57-108 | the total is the sum of the durations, each from the last start call before its end call, held at 2^32 - 1; the count is starts and ends together modulo 2^32 |
| RuntimeStatsRuns.StartRecorded | common/safety/runtime_stats.c:57-69 | the start time recorded is that of the last start call, and 0 before the first |
| RuntimeStatsRuns.DurationOf | common/safety/runtime_stats.c:95-98 | a duration is end minus start when the end is not earlier, cut to 32 bits, and one millisecond short when the 64-bit clock came round between them |
| RuntimeStatsRuns.ExtremesOfTask | common/safety/runtime_stats.c:103-112 | in every order of calls the maximum is the greatest duration, and the minimum the least since the last duration of 0 ms, or 0 when there is none since |
| RuntimeStatsRuns.AverageOfTask | common/safety/runtime_stats.c:72-85 | the ring holds the last five durations, and the average is a fifth of their sum, those not yet there counting as 0 |
| RuntimeStatsRuns.SnapshotsStored | common/safety/runtime_stats.c:118-127 | an end call stores the new figures in the next slot exactly when a positive multiple of 100 calls, modulo 2^32, came before it, starts and ends together; otherwise no slot changes |
| RuntimeStatsRuns.EntrySnapshots | common/safety/runtime_stats.c:88-131 | the same of an entry of the table, whatever calls of other names come between |
| RuntimeStatsRuns.AlternatingStoresNothing | common/safety/runtime_stats.c:118-174 | for calls of one name that alternate between start and end, no snapshot is ever stored and the trend warning cannot fire |
| RuntimeStatsRuns.AlternatingEntry | common/safety/runtime_stats.c:118-174 | the same of an entry of the table, whatever calls of other names come between |
| RuntimeStatsRuns.TableIsMap | common/safety/runtime_stats.c:35-55 | names are distinct, each entry has the figures of its name's own calls alone and a name is left out only when the table is full, exactly when every call with a name of 32 characters or more comes after the table is full |
| RuntimeStatsRuns.LongNamesPileUp | common/safety/runtime_stats.c:35-55 | after every run, a call with a name of 32 characters or more finds nothing and makes one more entry under the cut name, and is dropped once the table is full |
| RuntimeStats.Statistics.FindOrCreate | common/safety/runtime_stats.c:35-55 | the position of the entry, created zeroed when missing and there is room, or -1 |
| RuntimeStats.Statistics.StartTaskNamed | common/safety/runtime_stats.c:57-69 | applies the start to the entry of that name, as AppliedTable says |
| RuntimeStats.Statistics.EndTaskNamed | common/safety/runtime_stats.c:88-131 | applies the end to the entry of that name, as AppliedTable says |
| RuntimeStats.Statistics.UpdateMovingAverage | common/safety/runtime_stats.c:72-85 | stores the duration in the window's next slot; the average is the window's sum over 5, summed without overflow |
| RuntimeStats.Statistics.AnalyzeTrend | common/safety/runtime_stats.c:148-174 | warns exactly when at least 5 snapshots are more than a fifth above the one in the slot before |
| RuntimeStats.Statistics.VerifyHistory | common/safety/runtime_stats.c:203-231 | true exactly when no stored snapshot under that name has its minimum above its maximum |
| AsilRuns.EveryRun | common/safety/asil.c:74-158 | at every loop head of every run no attempt is pending, none was counted as failed, the three kinds of violation together are the successful recoveries modulo 2^32, and no recovery waited longer than the first delay; the monitor stops after exactly one failed attempt |
| AsilOutcomes.RunOutcome | common/safety/asil.c:74-127 | the monitor runs on exactly while every corruption of memory was restored, every mismatch of variables too, and only zeros were expected whenever the control flow deviated; its three counters are then the iterations that found each, modulo 2^32 |
| AsilOutcomes.StopOutcome | common/safety/asil.c:74-127 | it stops for good in the first iteration that finds something its recovery does not help, in the safe state, with what that iteration reached and found counted |
| AsilOutcomes.IterationOutcome | common/safety/asil.c:74-125 | what one iteration counts, in the order of its checks, and exactly when it stops |
| AsilOutcomes.Attempted | common/safety/asil.c:137-158 | an attempt waits 100, 200 or 400 ms, succeeds exactly when its action helps, and is counted otherwise, a mismatch asking for a reset and the others for a retry |
| AsilOutcomes.AttemptsExhausted | common/safety/asil.c:130-135 | after three attempts in a row another only counts as failed |
| AsilRuns.DeviationStops | common/safety/asil.c:79-89 | with a nonzero expected checkpoint the monitor runs on only while every iteration finds the control flow as expected |
| AsilRuns.UntouchedStops | common/safety/asil.c:79-89 | with checkpoints nothing writes, as in the source, one nonzero expected value stops the monitor in its first iteration, whatever follows |
| AsilRuns.UntouchedNeverViolates | common/safety/asil.c:201-208 | and with nothing but zeros expected no control-flow violation is ever counted |
| AsilRuns.ControlFlowRecovery | common/safety/asil.c:160-164 | a control-flow recovery succeeds exactly when nothing but zeros is expected |
| AsilRuns.BackOffBelowCap | common/safety/asil.c:137-141 | the back-off is 100, 200 or 400 ms, so its cap of 2000 ms is never met |
| AsilRuns.TimingCounted | common/safety/asil.c:91-98 | the counter of timing violations is the number of iterations that found the time since the one before above 50 ms, modulo 2^32 |
| AsilRuns.AlwaysTooSlow | common/safety/asil.c:91-125 | at the monitor's period n iterations record at least n - 1 timing violations |
| Asil.SafetyMonitor.VerifyControlFlow | common/safety/asil.c:201-208 | true exactly when every registered checkpoint holds its expected value |
| Asil.SafetyMonitor.BackOff | common/safety/asil.c:137-141 | the doubling loop computes the first delay times a power of two, capped |
| Asil.SafetyMonitor.ExecuteRecoveryAction | common/safety/asil.c:160-181 | clears the checkpoints and checks again, or reports what restoring reported, as Recover says |
| Asil.SafetyMonitor.Attempt | common/safety/asil.c:129-158 | backs off, recovers and counts, as AttemptRecovery says |
| Asil.SafetyMonitor.MonitorControlFlow | common/safety/asil.c:79-89 | counts a control-flow violation and recovers from it or stops, as CheckControlFlow says |
| Asil.SafetyMonitor.MonitorTiming | common/safety/asil.c:91-98 | counts a timing violation when more than 50 ms have passed since the last iteration |
| Asil.SafetyMonitor.MonitorMemory | common/safety/asil.c:100-110 | counts a memory violation and recovers from it or stops, as CheckMemory says |
| Asil.SafetyMonitor.MonitorVariables | common/safety/asil.c:112-122 | counts a mismatch of redundant variables and recovers from it or stops, as CheckVariables says |
| Asil.SafetyMonitor.MonitorOnce | common/safety/asil.c:74-127 | one iteration of the loop, ending in the safe state at the first recovery that fails, as Iterate says |

## Left out

- Drivers, node main loops, Bluetooth, MQTT, DNS, Wi-Fi and vehicle-to-infrastructure messages: plumbing over libraries that are not shown.
- Message authentication, AES storage, secure boot and the arithmetic of the security key and seed: the expected key is an arbitrary function of the stored time and the level.
- J1939 start-up (`j1939_init`), CAN filters, the semaphore `tp_sem` (given, never taken), BAM and CTS-driven sending (not implemented); one context owns the buffer.
- J1939 handlers: a handler is an identifier and its call is recorded; a handler that itself changes the session is not modelled. Reassembled and single-frame calls are recorded separately, so their order relative to each other is not captured.
- J1939Node.Context.ProcessMessage: the clock is read once per frame; time that passes inside a handler shows only in the next reading.
- J1939Pacing.PacedDeliveries: needs each gap between data frames to be under 2^32 - 750 ms, or the 32-bit clock could come round to an early reading.
- IsoTpTransfer.PacedReception: needs the 32-bit clock not to come round during the reception.
- IsoTp.Send: the time the sender sleeps between frames appears in the pacing results only, as a condition on arrival times.
- IsoTp.ReceiveInto: a send returns 0 or a negative error; positive results, which the source would pass on as if they were lengths, are not modelled.
- Protected memory start-up, MPU registers, access monitoring and the fault handler: no effect on the table or on memory.
- MemoryProtection.Memory.ProtectRegion: every address is inside the modelled memory, so address arithmetic that wraps is not captured; a region starting at 0 is the inactive one.
- Writes to protected memory between the steps of one pass: a pass is one sequential run, which is what makes the branch in CheckEntry dead.
- SensorRuns.RunningStatistics: rounding and overflow of floats are not captured; a division by a counter that has wrapped to 0 gives the value `NotFinite`, which stands for the infinities and for what is not a number.
- Sensors other than one channel: each identifier has its own, and identifiers of 16 and above, which skip statistics and reset, are not modelled; neither are log texts and `handle_sensor_disagreement`.
- Diag.Server.ProcessRequest: data identifiers, downloads, periodic data and the effects of communication control are answers of an arbitrary function. Routine data past 258 bytes runs on into other memory: the model keeps what was written there until the next start, and does not say what that overwrites or what else writes there.
- Names with embedded NULs, `runtime_stats_get`, the report and its log lines.
- The monitor's event queue, actuator and notification calls, `monitor_counter`, `control_flow_valid`, and registering checkpoints while it runs; the safe state, which the firmware never leaves, is the monitor having stopped.
- Interleavings of threads inside locked sections: each is atomic.
- `error_handler.c`, `task_monitor.c`, `event_manager.c`, `asil_monitor.c`, `redundancy.c` and `emergency_handler.c` are not modelled.
