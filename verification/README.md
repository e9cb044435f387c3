# ABS controller and vehicle simulator: a verified model

The repository couples two processes. A plant (Python) simulates a braking quarter car and sends
sensor frames; an ECU (C) decodes them, diagnoses faults, runs the ABS state machine and answers
with brake commands. Both ends speak a framed byte protocol with a CRC. This project models three
parts of that system in Dafny and proves what they promise.

**The wire.** `Crc` holds the shift register of both languages and `CrcStart` pins where it starts.
`CrcAlgebra`, `CrcBits` and `CrcDetection` treat it as a linear machine over GF(2) and prove which error patterns it cannot
miss; `FrameCorruption` lifts that to frames. `Protocol` is the envelope (7 bytes of overhead in
the code; docs/PROTOCOL.md:62 says 9). `StreamParse` says what a byte stream means to a receiver,
`StreamTheorems` and `GreedyParse` what follows from it, `FrameDecoder` and `SocketDrv` are the two
stateful receivers (a growing buffer; 256 bytes shifted in place), `ParseDepth` bounds the recursion
of the first, and `CrossLanguage` compares them.

**The ECU.** `AbsState`, `AbsController`, `Diagnostic` and `Ecu` are the modules of the control loop as
classes, each tied to a step function on values. `EcuRuns`, `CrcRate`, `Oracle` and the end of
`AbsState` and `Ecu` characterise whole runs, `EcuNumbers` says what the loop does in physical units
and before its first sample, `LoopOracle` compares the whole loop with the plant's
reference controller. 32-bit counters wrap (`UInt32`), and the theorems say
where the wrap shows.

**The environment.** `Vehicle` is the Euler step of the plant over the reals, `FaultInjector` and
`FaultChain` the injected faults and their composition, `InjectedFaults`, `CorruptionRate`,
`NoFalseAlarm` and `StuckAlarm` join them to the receivers and the ECU, and `Timing` is the loop's schedule and jitter statistics.

The receivers `Plant` and `Ecu` share one specification, `StreamParse.Drain`; they differ in the
types and payload sizes they accept. Each receiver is a class of its own, proved against it.
`GreedyParse` then explains `Drain` without any of its machinery: by a scan that moves one byte at a
time, takes what the encoder writes, and stops where a frame may still be completed
(`GreedyParse.End`).

Where the code differs from what is said about it:

- The "rolling" window of CRC errors (controller/src/app/diagnostic.c:129) is tumbling:
  `CrcRate.WindowsDoNotRoll` gives a run with eight errors in two calls that is never reported. Eight
  is the limit: `CrcRate.NineAreReported`.
- The controller is called the twin of the oracle. It is one exactly on roads where the ECU never
  coasts in standby above the bypass speed: `Oracle.EquivalentIffNeverCoasting`.
- The distance update labelled trapezoidal (plant/vehicle.py:111) adds half a speed change to the
  already updated speed. It is the trapezoid only where nothing changes the speed:
  `Vehicle.DistanceIsTrapezoidalIff` for the update, `Vehicle.StepIsTrapezoidalIff` for the whole step.
- The stuck detector takes it that a healthy wheel speed never repeats exactly
  (controller/src/app/diagnostic.c:19-23). In the model, whose numbers are exact, the true samples of
  a drive trip it precisely when the vehicle moves faster than 1 m/s and the wheel had one speed in
  eleven samples: `StuckAlarm.StuckIffSteady`. A vehicle that nobody brakes trips it from the eleventh
  sample on (`StuckAlarm.StuckIffCruising`) and latches the ECU from the twentieth
  (`StuckAlarm.CruiseLatches`); a pedal of 0 is a documented argument (controller/src/main.c:27). In a panic stop it is tripped precisely while the wheel has been locked
  for ten samples above 1 m/s (`StuckAlarm.StuckIffLongLocked`), which on ice happens below the bypass
  speed, where nothing releases the brake (`StuckAlarm.IceLatches`).
- The corruption fault's default of one frame in a hundred (plant/fault_injector.py:142) goes unnoticed
  by the trouble code: it takes one in 24 (`CorruptionRate.NoticedIffEvery24th`).
- The plant's decoder recurses once per reject, and its interpreter limits recursion.
  `ParseDepth.SafeDepthIff` is the exact depth that a buffer of n bytes can cause. The reads of the
  plant's link never need more than 161 calls (`ParseDepth.LinkStaysShallow`), but 2003 bytes in one feed
  can need a thousand (`ParseDepth.OneFeedTooDeep`).
- Counters of consecutive events are 32 bits wide, so "at least n in a row" holds up to the wrap;
  the exact condition is stated in `EcuRuns.DtcIsHistory`.
- The watchdog compares a 32-bit product, which wraps: `EcuRuns.StaleSampleReturns`. The ECU is
  latched long before, so the command is not affected (`EcuRuns.CommunicationLoss`).
- A constant brake that beats the strongest friction stops the vehicle iff it exceeds 1 bar:
  `Vehicle.StopsIffAboveOneBar`. On the four preset surfaces (plant/tire.py:33-38) beating the friction
  already takes more than 4.7 bar (`Vehicle.PresetsLockAbove`), so there the condition costs nothing.

- The watchdog allows 50 ms without a sample, but only after a first one: until it arrives each cycle
  counts as a fault, and ten of them latch the ECU for good (`EcuNumbers.LateFirstSample`).

Floats are reals. A sample carries a flag for "not finite", with real stand-ins that compare as the
NaN or infinity does.

## Model

| member | source | states |
|---|---|---|
| Crc.Crc16Controller | controller/src/drivers/crc.c:3-19 | the nested byte and bit loops on a 16-bit register compute the CRC of the data |
| Crc.Crc16Plant | plant/protocol.py:115-129 | the masked integer register of the plant computes the same CRC, so both ends agree on every string |
| Crc.MaskedStepIsBitStep | plant/protocol.py:124-128 | masking after the shift loses nothing: the wider integer always equals the 16-bit register |
| CrcStart.StartInvertsTwoBytes | plant/protocol.py:121-129 | the CRC of any string of two bytes or more is that of a register started at zero on the string with its first two bytes inverted |
| CrcStart.CheckValue | plant/protocol.py:119-119 | the CRC of the nine digits is 0x29B1 |
| CrcAlgebra.FromLinear | controller/src/drivers/crc.c:8-17 | the register is linear: the CRC of a sum of strings is the sum of the registers |
| CrcBits.FromIsShift | controller/src/drivers/crc.c:8-17 | mixing bytes in and shifting eight times is the bit-serial register, most significant bit first |
| CrcDetection.OrbitOutlastsFrame | controller/src/drivers/crc.c:10-16 | the powers of x do not return to 1 within 552 steps, the length of the largest frame |
| CrcDetection.DetectsThreeBits | controller/src/drivers/crc.c:3-19 | every pattern of one to three wrong bits in 552 leaves a nonzero register |
| CrcDetection.DetectsBurst | controller/src/drivers/crc.c:3-19 | every nonzero pattern within sixteen consecutive bits leaves a nonzero register |
| CrcDetection.PolynomialGoesUnseen | controller/src/drivers/crc.c:12-12 | both bounds are tight: a pattern of four bits within seventeen leaves the register zero |
| Protocol.EncodeFrame | plant/protocol.py:134-147 | a frame is encoded iff its type is 1 or 2 and its payload has at most 64 bytes, and then each byte is given in numbers: 55 AA, the type, length and CRC with the low byte first, the CRC over type, length and payload; an oversized payload is reported before an unknown type |
| Protocol.LengthBytes | plant/protocol.py:209-209 | a length field reads as n exactly when its bytes are the little-endian bytes of n |
| FrameCorruption.ErrorRejected | plant/protocol.py:211-231 | with magic and length intact, a corrupted frame is a type error, a CRC error, or taken, exactly as its type and the register of its error pattern say |
| FrameCorruption.ThreeFlipsRejected | plant/protocol.py:213-231 | one to three flipped bits among type, payload and CRC: nothing is delivered at that position, one reject is counted, the scan moves two bytes |
| FrameCorruption.BurstRejected | controller/src/drivers/socket_drv.c:162-181 | the same for any burst of at most sixteen bits inside type or payload |
| FrameCorruption.FourFlipsCanPass | plant/protocol.py:224-234 | four flipped bits can turn any frame with three payload bytes into another one that is taken |
| StreamParse.DrainInTwo | plant/protocol.py:172-234 | draining early and again after more bytes is draining once, in frames, counters and residue |
| StreamParse.DrainByExtraction | controller/src/drivers/socket_drv.c:123-197 | extracting one frame and draining the rest is draining |
| StreamParse.ExtractDelivers | controller/src/drivers/socket_drv.c:183-195 | an extraction skips only frames of unwanted size and delivers the last frame it reads |
| StreamTheorems.ChunkIndependence | plant/protocol.py:172-234 | for every stream, every cut into feeds and drains at any time, a last drain logs the same as one feed and one drain |
| StreamTheorems.ConservationAlways | plant/protocol.py:165-234 | at every moment: bytes fed = residue + dropped + 2 per reject + the wire size of each frame taken |
| StreamTheorems.JudgeWire | plant/protocol.py:204-234 | the parser undoes the encoder whatever follows the frame |
| StreamTheorems.WholeIsWire | plant/protocol.py:204-234 | what the parser takes is what the encoder writes for the frame it returns |
| StreamTheorems.VerdictInNumbers | plant/protocol.py:204-234 | on seven bytes or more behind a magic: too long iff the declared length exceeds 64, then unknown type, then incomplete, then taken iff the received CRC is that of type, length and payload; the ECU knows type 1 only |
| StreamTheorems.OnlyKnownFrames | plant/protocol.py:211-216 | from any bytes only frames of known types with at most 64 payload bytes come out |
| StreamTheorems.RoundTrip | plant/protocol.py:134-147 | the concatenated encodings of any frames drain to exactly those frames, empty buffer, counters zero |
| StreamTheorems.EncoderRoundTrip | plant/protocol.py:134-147 | whatever the encoder accepts, in any number, the plant decoder returns with the same type number and payload, and counts nothing |
| StreamTheorems.RoundTripAfterGarbage | plant/protocol.py:189-202 | a prefix without magic only adds its length to the dropped bytes |
| StreamTheorems.SameLog | controller/src/drivers/socket_drv.c:155-181 | on a stream that announces no actuator frame both receivers log the same |
| GreedyParse.DrainIsGreedy | plant/protocol.py:184-234 | the frames taken are the leftmost non-overlapping encoder outputs, and the decoder stops exactly where a byte-by-byte reading first has to wait for more |
| GreedyParse.Resynchronises | plant/protocol.py:184-234 | 71 bytes after the start of a well-formed frame it has been delivered, unless it lies inside an earlier delivered frame |
| GreedyParse.CountersAreRejects | plant/protocol.py:211-231 | each error counter is the number of magic pairs outside frames, up to the point where that reading waits, whose first failing check is that one: the two-byte slide jumps over none |
| GreedyParse.ResidueIsUndecided | plant/protocol.py:186-222 | what stays in the buffer is the end of the stream: at most one byte, or a magic pair with a frame that may still be completed |
| FrameDecoder.Decoder.Feed | plant/protocol.py:172-173 | the bytes are appended and the object stays what its history makes of it |
| FrameDecoder.Decoder.Scan | plant/protocol.py:186-192 | the scan stops at the first magic pair, or finds none |
| FrameDecoder.Decoder.SkipToMagic | plant/protocol.py:189-202 | what precedes the magic is dropped and counted; without magic one byte is kept |
| FrameDecoder.Decoder.Examine | plant/protocol.py:204-234 | size, type, completeness and CRC are checked in this order |
| FrameDecoder.Decoder.TryOne | plant/protocol.py:184-234 | one recursive search takes exactly the next extraction and counts what it rejects; it is nested once per reject |
| ParseDepth.DepthBounded | plant/protocol.py:211-231 | n buffered bytes, whatever they are, cause at most 1 + (n - 5) / 2 nested calls, and one below seven bytes |
| ParseDepth.SafeDepthIff | plant/protocol.py:211-231 | a recursion limit is safe for all contents of n bytes iff it admits that depth: an alternating magic reaches it |
| ParseDepth.LinkStaysShallow | plant/socket_server.py:105-109 | whatever came before, a read of at most 256 bytes after a drain needs at most 161 nested calls |
| ParseDepth.OneFeedTooDeep | plant/protocol.py:211-214 | 2002 bytes stay below a thousand nested calls; there are 2003 that need a thousand |
| FrameDecoder.Decoder.Drain | plant/protocol.py:175-182 | the frames returned and the counters are those of the buffer; the whole object equals one drain of everything ever fed; no search in it is nested deeper than the buffer allows |
| SocketDrv.Driver.Discard | controller/src/drivers/socket_drv.c:143-146 | shifting the buffer down removes exactly the first n bytes |
| SocketDrv.Driver.SkipToMagic | controller/src/drivers/socket_drv.c:125-146 | the scan and the two ways of dropping bytes, in place |
| SocketDrv.Driver.Examine | controller/src/drivers/socket_drv.c:148-181 | the checks of the driver on the array give the specified verdict |
| SocketDrv.Driver.Act | controller/src/drivers/socket_drv.c:155-195 | each verdict moves one counter and removes two bytes or the frame |
| SocketDrv.Driver.TryExtractFrame | controller/src/drivers/socket_drv.c:123-197 | the in-place loop is the specified extraction, its statistics wrap at 32 bits, and at most 70 bytes are left when it finds nothing |
| SocketDrv.Driver.ReadOn | controller/src/drivers/socket_drv.c:220-236 | the buffer never fills: the overflow branch is dead and at least 186 bytes are free at every read |
| SocketDrv.Driver.RecvSensor | controller/src/drivers/socket_drv.c:199-238 | over any answers of the socket: frames come out in stream order, each once; without a frame the call ends on a timeout, a failure or a closed peer, and everything received has been parsed; no byte is lost |
| SocketDrv.CountThen | controller/src/drivers/socket_drv.h:47-54 | statistics that wrap at every step equal the totals reduced once |
| CrossLanguage.SameStream | controller/src/drivers/socket_drv.c:123-197 | the driver hands out the plant decoder's frames of 18 bytes, with equal CRC errors, type errors, dropped bytes and residue, and one size error more per frame of another size |
| CrossLanguage.SameObjects | controller/src/drivers/socket_drv.c:240-243 | the same between the two objects after both have read one stream |
| CrossLanguage.EncodeActuator | controller/src/drivers/socket_drv.c:88-109 | the hand-filled send buffer is the encoder's output |
| CrossLanguage.ActuatorRoundTrip | controller/src/drivers/socket_drv.c:88-114 | the plant decodes exactly the actuator frames the controller sends |
| AbsState.Context.Update | controller/src/app/abs_state.c:35-111 | faults first, then the latch, then the transitions; counters wrap at 32 bits |
| AbsState.LatchIsHistory | controller/src/app/abs_state.c:35-111 | latched iff ten consecutive cycles were ever faulty; else the fault count is the current faulty run and the state is degraded iff it is positive; the initial state never returns |
| AbsState.LatchAbsorbs | controller/src/app/abs_state.c:44-59 | latched is forever, whatever the fault counter holds |
| AbsState.ActiveIsHysteresis | controller/src/app/abs_state.c:79-98 | from the inputs alone: active iff slip once rose over the upper threshold while on guard (healthy, never latched, not standing by) and the run has since been healthy, moving and not below the lower one; monitoring iff on guard and not active |
| AbsState.StandbyIsHistory | controller/src/app/abs_state.c:67-106 | standby iff never latched and, since some cycle at walking pace, healthy and not braking above it |
| AbsState.DwellIsHistory | controller/src/app/abs_state.c:41-53 | the counter of cycles is the length of the last stretch without a change of state, and the previous state is that of the run one input shorter |
| AbsController.SlipProtected | controller/src/app/abs_controller.c:15-21 | slip lies in [0, 1], is zero at crawling speed, and inside the band is the exact ratio |
| AbsController.Context.Compute | controller/src/app/abs_controller.c:23-57 | pass-through in faults, initially, in standby and below 5 km/h, else release, re-apply or hold |
| Ecu.SuperLoop.OneCycle | controller/src/main.c:147-184 | one pass of the loop over its objects is the specified cycle |
| Ecu.FsmOfRun | controller/src/main.c:168-174 | inside a run the state machine behaves as alone on the inputs the loop gives it |
| Ecu.CommandFollowsStatus | controller/src/main.c:168-176 | in every reachable cycle ACTIVE means command 0, and every standing-back state means the driver's request |
| Ecu.TwoLevels | controller/src/app/abs_controller.c:49-56 | with a constant pedal the command is zero or the pedal |
| EcuNumbers.SlipInNumbers | controller/src/app/abs_controller.c:15-21 | the loop's slip is over 0.2 iff 0.3 omega < 0.8 v and under 0.1 iff 0.3 omega > 0.9 v, from 1 m/s on, and zero below |
| EcuNumbers.SameSlip | plant/tire.py:90-105 | the ECU and the plant compute the same slip from the same speeds |
| EcuNumbers.FaultInNumbers | controller/src/app/abs_state.c:7-16 | an input is faulty iff it has a code, is not valid, or leaves [-1, 120] m/s or [-1, 500] rad/s |
| EcuNumbers.RangeInNumbers | controller/src/app/diagnostic.c:84-91 | with a fresh sample the range code is raised iff it is not finite or leaves those bounds |
| EcuNumbers.CycleInNumbers | controller/src/main.c:168-176 | status and command of a cycle on a fresh raw sample, from any state: pedal after a fault or below 5 km/h, nothing where the rim is over a fifth slower than the body, the pedal where it is under a tenth slower, else held |
| EcuNumbers.StopInNumbers | controller/src/main.c:147-176 | over a whole fault-free stop the command is what the last settling raw sample says |
| EcuNumbers.BlindStart | controller/src/main.c:147-176 | while no sample has ever arrived: pedal in every cycle, one fault each, degraded for nine cycles and latched from the tenth |
| EcuNumbers.LateFirstSample | controller/src/app/abs_state.c:43-59 | an ECU whose first sample takes ten cycles stays latched for the whole run |
| EcuNumbers.ImplausibleIffFiveOutran | controller/src/app/diagnostic.c:95-111 | with a checked sample in every cycle: raised iff in the last five the rim was over 0.5 m/s faster than a body at 1 m/s or more |
| Oracle.EquivalentIffNeverCoasting | plant/oracle_abs.py:39-54 | on fault-free roads the ECU and the oracle agree for every slip and pedal iff the ECU never coasts in standby above the bypass |
| Oracle.StoppingIsEquivalent | plant/oracle_abs.py:39-54 | so they agree on every run whose speed never climbs back over the bypass |
| LoopOracle.LoopIsOracle | controller/src/main.c:147-176 | inside the whole loop, from what it reads: a fault-free run that never coasts in standby commands what the oracle commands on the same slip, speed and pedal |
| LoopOracle.StoppingLoopIsOracle | controller/src/main.c:147-176 | so does every fault-free run of the loop whose speed never climbs back over the bypass |
| Oracle.OracleAbs.Step | plant/oracle_abs.py:39-54 | the reference command and what it remembers |
| Oracle.CommandIsLastDecision | plant/oracle_abs.py:39-54 | the command is the outcome of the last cycle whose slip was outside the band or whose speed was below the bypass |
| Diagnostic.Context.CheckAll | controller/src/app/diagnostic.c:115-184 | link codes first, content checks only on accepted samples |
| Diagnostic.Context.IsStuck | controller/src/app/diagnostic.c:18-40 | counts repeats of the wheel speed while moving |
| Diagnostic.Context.IsImplausible | controller/src/app/diagnostic.c:95-111 | counts samples whose rim outruns the body, never below 1 m/s |
| Diagnostic.Context.Roll | controller/src/app/diagnostic.c:129-142 | judges and resets the window before new errors are added |
| EcuRuns.SampleIsHistory | controller/src/main.c:147-161 | a cycle works on the fresh sample, or on the last one while the 32-bit product of missed cycles and period is at most 50 |
| EcuRuns.StaleSampleReturns | controller/src/main.c:160-161 | in the 429 496 730th missed cycle of any run the last sample, invalid in the cycle before, is used as valid again |
| EcuRuns.DtcIsHistory | controller/src/app/diagnostic.c:115-184 | each code but the CRC rate is raised iff the history of the run says so: repeats, outruns, range, missed cycles |
| EcuRuns.FrozenRunMeans | controller/src/app/diagnostic.c:29-36 | the frozen run is the maximal stretch of repeats at the end of the checked samples |
| EcuRuns.StuckIffTenRepeats | controller/src/app/diagnostic.c:18-40 | stuck is raised iff the sample is checked and at least ten repeats end there, up to the wrap |
| EcuRuns.StuckIffTenUnchanged | controller/src/app/diagnostic.c:18-40 | with a checked sample in every cycle, raised iff each of the last ten samples repeats its predecessor, the first one an initial zero, above 1 m/s |
| EcuRuns.FrozenSensorLatches | controller/src/app/diagnostic.c:158-161 | whatever came before, a frozen sensor raises the code from its 11th sample and latches the ECU from its 20th |
| EcuRuns.CommunicationLoss | controller/src/main.c:147-176 | in any gap: the timeout is raised iff the counter exceeds five, the pedal passes from the 6th missed cycle, latched from the 15th, wraps included |
| EcuRuns.TimeoutCount | controller/src/app/diagnostic.c:124-127 | a gap of g cycles raises the timeout exactly max(0, g - 5) times |
| EcuRuns.LossLatchesForGood | controller/src/app/abs_state.c:43-59 | after fifteen missed cycles the ECU is latched for the rest of the run |
| CrcRate.RaisedAtHundreds | controller/src/app/diagnostic.c:129-142 | the rate code is raised only at calls 100k, iff at least five errors were first seen in calls 100(k-1) to 100k-1 |
| CrcRate.WindowsPartition | controller/src/app/diagnostic.c:131-142 | what the counter held at the comparisons adds up to the link's total: every error is judged in exactly one window; a comparison raises the code iff the counter holds five |
| CrcRate.CrcAloneNeverLatches | controller/src/app/abs_state.c:44-62 | with usable samples and no other code, CRC errors never latch the ECU |
| CrcRate.WindowsDoNotRoll | controller/src/app/diagnostic.c:129-138 | eight errors in two consecutive calls across a boundary are never reported |
| CrcRate.NineAreReported | controller/src/app/diagnostic.c:129-142 | nine errors within any hundred consecutive calls raise the code at one of the next two comparisons |
| Vehicle.Plant.Advance | plant/vehicle.py:83-124 | the in-place step: saturation, Euler updates in order, clamps, snap to standstill |
| Vehicle.Plant.ApplyClamps | plant/vehicle.py:114-124 | clamps first, then the snap to standstill under more than 1 bar |
| Vehicle.MomentumBalance | plant/vehicle.py:92-124 | while the vehicle moves: friction takes from 400 kg at 0.3 m what it gives to 1.2 kg m2, less 25 Nm per bar up to 150 bar; speed, distance and time of the step in numbers; a standing wheel would have been turned backwards |
| Vehicle.SnapIff | plant/vehicle.py:114-124 | a step brings a moving vehicle to rest iff the brake exceeds 1 bar and friction takes it below 1 m/s; then the wheel stands too |
| Vehicle.SlipInNumbers | plant/tire.py:90-105 | from 1 m/s on slip times speed is speed minus 0.3 omega, zero for a wheel faster than the body, one for a negative wheel speed |
| Vehicle.ReleasedWheelRecovers | plant/vehicle.py:102-119 | on a road that grips, a released wheel comes under any given slip within an explicit number of steps, even from a lock |
| Vehicle.LeadIsBounded | plant/vehicle.py:92-124 | for every pressure and surface sequence from free rolling, the rim never leads the body by more than 0.30411 m/s, and speed never rises |
| Vehicle.WheelLocks | plant/vehicle.py:102-119 | the wheel loses at least the lock rate per step until it stands |
| Vehicle.LockedSlide | plant/vehicle.py:109-124 | a locked wheel stays locked and the body loses exactly mu(1) g dt per step until it is snapped to rest |
| Vehicle.PanicStopEnds | plant/vehicle.py:130-132 | a panic stop locks and stops within explicit numbers of steps |
| Vehicle.LightBrakeNeverStops | plant/vehicle.py:122-124 | at 1 bar or less a moving vehicle never stops: below walking pace it keeps its speed, from above it stays at 0.99 m/s or more |
| Vehicle.StopsIffAboveOneBar | plant/vehicle.py:122-132 | a constant pressure that beats the strongest friction stops a moving vehicle iff it exceeds 1 bar |
| Vehicle.PresetsLockAbove | plant/tire.py:33-38 | with a friction peak of at least 0.1 only more than 4.7 bar beats the strongest friction |
| Vehicle.DistanceIsTrapezoidalIff | plant/vehicle.py:109-111 | the distance grows by the trapezoid under the speed iff friction or the time step is zero |
| Vehicle.StepIsTrapezoidalIff | plant/vehicle.py:109-124 | on any road, clamps and snap included, the distance of a step is the trapezoid under the speed iff the step leaves the speed unchanged |
| FaultInjector.StuckSensorFault.Apply | plant/fault_injector.py:56-73 | the first wheel speed in the active window is held, everything else passes |
| FaultInjector.FrozenWhileActive | plant/fault_injector.py:61-73 | throughout an active stretch every frame shows the first wheel speed and its own other fields |
| FaultInjector.CrcCorruptionFault.MutateWire | plant/fault_injector.py:150-160 | which calls change the wire, where, and which fail |
| FaultInjector.OneInEveryN | plant/fault_injector.py:150-160 | of any wires that the offset reaches before the CRC, exactly one in every N comes out changed |
| FaultChain.Injector.FilterSensor | plant/fault_injector.py:204-210 | the loop over the faults is the chain: it stops at the first drop and leaves later faults alone |
| FaultChain.Injector.FilterWire | plant/fault_injector.py:212-217 | the loop over the faults is the chain on the wire, counters included; an error ends it |
| FaultChain.OneFault | plant/fault_injector.py:43-44 | what each kind of fault makes of a frame and of itself, between the first and the last second of its window and outside it |
| FaultChain.OneFaultOnWire | plant/fault_injector.py:150-160 | in its window a corruption turns byte x at the offset, counted from the end if negative, into 255 - x in every N-th wire that is long enough, and leaves all else; a rate of zero and an offset before the start are errors |
| FaultChain.QuietChain | plant/fault_injector.py:204-210 | outside all windows the ECU gets what the plant measured and no fault holds a value |
| FaultChain.OneCorruptionInChain | plant/fault_injector.py:212-217 | with one active corruption in a chain the wire and the counters are what that fault alone makes of them |
| FaultChain.LastSetterShows | plant/fault_injector.py:93-116 | the frame shows the value of an active range fault unless a later fault sets the wheel speed |
| FaultChain.RangeFaultEndToEnd | plant/fault_injector.py:93-116 | from an active range fault in the chain to the ECU: code and pedal in every cycle, latched from the tenth, whatever came before |
| FaultChain.DroppedIffLoss | plant/fault_injector.py:121-128 | a frame is dropped iff some communication loss in the chain is active |
| FaultChain.OnlyWheelSpeed | plant/fault_injector.py:61-116 | the chain changes nothing but the wheel speed and the informative flags |
| FaultChain.BehindLossUntouched | plant/fault_injector.py:204-210 | faults behind an active loss keep their state |
| FaultChain.CommLossEndToEnd | plant/fault_injector.py:121-128 | from an active loss in the chain to the ECU: pedal from the 6th cycle, latch from the 15th |
| FaultChain.WireLengthKept | plant/fault_injector.py:212-217 | corruption never changes the length on the wire |
| InjectedFaults.InjectedFlipIsRejected | plant/fault_injector.py:150-160 | an injected inversion of a type or payload byte makes both receivers reject the frame |
| CorruptionRate.CorruptedLine | plant/fault_injector.py:150-160 | where no corrupted frame holds a second magic pair: exactly the spared frames arrive, in order, each hit counts as one CRC error, and nothing else is counted |
| CorruptionRate.NoticedIffEvery24th | controller/src/app/diagnostic.c:129-142 | behind such a line, one frame per cycle, the ECU raises the CRC code within seven comparisons after the fault sets in iff at least every 24th frame is hit |
| CorruptionRate.RareHitsGoUnnoticed | controller/src/app/diagnostic.c:129-142 | at one frame in 25 or fewer the code is never raised, however long the line |
| CorruptionRate.FrequentHitsAlwaysNoticed | controller/src/app/diagnostic.c:129-142 | at one in 20 or more, every comparison whose window lies in the fault raises it |
| InjectedFaults.StuckSensorEndToEnd | plant/fault_injector.py:61-73 | from the plant's fault to the ECU: code from the 11th frozen frame, latch from the 20th |
| NoFalseAlarm.NoPlausibilityAlarm | controller/src/app/diagnostic.c:95-111 | samples of the undisturbed plant, however delayed or repeated, never raise the plausibility code |
| StuckAlarm.StuckIffSteady | controller/src/app/diagnostic.c:18-40 | for true samples of any drive from free rolling, under any pressures and surfaces: the stuck code is raised iff the vehicle is faster than 1 m/s and the wheel had one speed in this sample and the ten before |
| StuckAlarm.StuckIffCruising | controller/src/app/diagnostic.c:18-40 | for true samples of a vehicle that nobody brakes: raised iff it is faster than 1 m/s, from the 11th sample on |
| StuckAlarm.CruiseLatches | controller/src/main.c:165-176 | whatever came before, such samples above 1 m/s latch the ECU from the 20th on; with a pedal of zero it commands zero throughout |
| StuckAlarm.StuckIffLongLocked | plant/vehicle.py:102-124 | for true samples of a panic stop from any state: raised iff the wheel was already locked ten samples ago, or all along in the tenth sample, and the vehicle is faster than 1 m/s |
| StuckAlarm.LockedWheelLatches | controller/src/app/diagnostic.c:18-40 | whatever came before, true samples of a locked wheel that slides on above 1 m/s raise the stuck code from the 11th and latch the ECU from the 20th; below the bypass the pedal passes throughout |
| StuckAlarm.IceLatches | plant/vehicle.py:102-124 | on a surface with a peak of at most 0.1 this happens to every wheel locked between 1.2 m/s and the bypass speed |
| Timing.Timespec.AddNs | controller/src/utils/time_utils.h:14-22 | exact addition of any nanoseconds and a normal result, under truncating division |
| Timing.DiffUs | controller/src/utils/time_utils.h:25-29 | the difference is exact up to a microsecond, towards zero in the sub-second part |
| Timing.Schedule | controller/src/main.c:133-136 | the n-th wake-up is exactly n periods after the start |
| Timing.Welford | controller/src/main.c:77-82 | one update turns the exact mean and squared spread of a list into those of the longer list |
| Timing.Jitter.Add | controller/src/main.c:77-85 | after any samples n times the mean is the sum, m2 the squared spread, min and max the extremes |

## Left out

- Sockets, poll, signals, sleeping, command line, logging and plotting: replaced by arbitrary input sequences; a short `recv` is two readable events.
- `PlantLink`, `decode_one`, statistics getters, `abs_state_name`: wrappers and test helpers.
- FrameDecoder.Decoder.TryOne: the error raised at the interpreter's recursion limit, and the frames a drain then loses, are not modelled; `ParseDepth` says which buffers stay below any limit.
- StreamTheorems.ChunkIndependence: speaks of receivers that are not stopped by that limit, for the same reason.
- CorruptionRate.NoticedIffEvery24th: assumes that each cycle reads what was sent for it, and that no corrupted frame holds a second magic pair, which could swallow later frames.
- NULL arguments of the C functions: references in the model are never null.
- Payload field packing: payloads are byte strings, and the sample the ECU reads is given as numbers.
- IEEE rounding, and the sine and arctangent of the friction curve: reals, and a shape bounded by [0, 1] that vanishes at 0.
- The noise detector: compiled out of the diagnostic check.
- The noise fault and the ice patch: randomness, and a surface swap that `Vehicle` already allows at every step.
- FaultChain.Injector.FilterSensor: the faults in the list are values with their state, not shared objects.
- Overflow of `long` in the time functions, of the 64-bit cycle counter, and `frames_sent_ok`.
- `peak_slip`, scenario envelopes and stopping distances: numeric results.
- Oracle.EquivalentIffNeverCoasting: thresholds are equal reals on both sides, although one side stores them as single and the other as double precision.
- SocketDrv.Driver.TryExtractFrame: its loop body is split into methods for scanning, examining and acting, and a payload is copied out of the frame rather than out of the buffer before the shift.
