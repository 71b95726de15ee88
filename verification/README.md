# Verification of the HIL capture, gate-drive and display pipeline

Dafny 4.11 models of the parts of the repository whose correctness rests on
state, modular arithmetic or interleaving, with proofs of what they promise.
`dafny verify dfyconfig.toml` checks everything.

What is modelled, one module per component:

- **Telemetry link** (`Crc`, `CrcDistance`, `CrcStart`, `Frame`, `Telemetry`): the C
  sender, the Go parser and the checksum they share. The checksum routine is proved
  equal to bit-serial polynomial division; from that follow the detection of bursts, of
  odd numbers of wrong bits and, by the period of the generator, of any two; and the
  wire round trip over whole runs. `CrcStart` is about the all-ones start.
- **Gate driver, carrier and dead-time repair** (`GateDriver`, `GateInputs`, `Carrier`,
  `Repair`, `RepairTwice`, `GateStream`, `StreamLevels`): the seven-state driver and the
  triangular carrier of the C mocks over all runs, and the offline repair of lost events
  as a transformation of waveforms. `GateInputs` says what the driver does in terms of
  its inputs alone. `GateStream` and `StreamLevels` join driver and repair: the event
  stream tells the drivers' outputs, and their dwell is what makes the repair harmless
  on genuine captures.
- **Capture recorder** (`Counters`, `Capture`, `CaptureTimeline`, `CaptureCounts`,
  `CaptureFile`, `CaptureSeal`, `Recorder`, `SampleClock`, `StopProtocol`,
  `StopOutcomes`, `CaptureSystem`):
  `Capture` says arrival by arrival what a capture holds; `Recorder` is the object with its
  fields and its file, byte by byte, proved against it; `CaptureFile` is the
  layout and its reader; `StopProtocol` is the interleaving of submitters, writer
  loop and start/stop calls, and `StopOutcomes` what becomes of every submission;
  `CaptureSystem` joins protocol and capture, from concurrent submissions to what the
  reader finds.
- **Ring** (`Bits`, `Ring`, `RingProtocol`): the lock-free ring as a class and as
  interleaved steps.
- **Viewport and tiles** (`Viewport`, `Pyramid`, `Quotients`, `Tiles`,
  `TileCache`, `TileAnswers`): the single-flight query on its event loop, the
  multi-resolution index, and the client cache against a growing index.
- **DMA frame** (`DmaFrame`, `DmaBits`): the 42-bit field unpacker, and where each bit
  of a frame goes.

`Layouts` says where every byte of a datagram and of a capture file lies. `Arith`,
`Bytes`, `Legs`, `Sorting` and `Wrappers` are shared by all of these.

Conventions. Hardware counters are modelled by unbounded true counts of which the
low bits are observed. Floats carried as payload are opaque 32-bit words; times of
the repair and of the pyramid are exact reals, other times exact cycle counts. An
imperative routine is a method or a class with the source's fields, proved equal
to a specification function; the properties are lemmas about that function over
all inputs and all runs.

## Where code and comments differ

The code is followed in each case.

- `viewport.ts` says a response is delivered only if its window is still the
  current one. Only the generation is compared; `Viewport.DeliveredIsWantedExactly`
  gives the exact condition. A request for the window in flight is ignored even
  while a different window is pending (`Viewport.RequestHonouredExactly`).
- `tilecache.ts` says that every requested index is loaded afterwards. A tile is, if
  and only if fewer different others than the cache can hold were used after it
  (`TileCache.LoadedInRunExactly`): not so when one call asks for more
  (`KeysLoadedExactly`), or when calls overlap (`OverlappingCallsEvict`).
- A sealed tile is said never to change; a reset of the pyramid changes it all the
  same (`TileCache.ResetLeavesStaleTile`), and `CacheIsCoherent` says exactly when
  the cache stays right.
- The repair's comment says that the scan tracks the last non-transient level; no
  such level is kept, and every lost exit leads to zero.
- Repairing twice is repairing once for a given dead time, not for the estimated one
  (`RepairTwice.SecondRepairCuts`, `Repair.DefaultRepairSettlesExactly`).
- The reader's layout comment gives event times as floats; the version byte
  decides, and version 2 stores cycles.
- An event that precedes the first sample can be stored, and one behind it dropped
  (`CaptureTimeline.FirstKeptWrongly`); `FirstStoredExactly` and, for whole streams,
  `EventsExact` say exactly when not.
- The recorder compares the full 16-bit epoch in one test and 14 bits elsewhere, the
  live clock 16 bits throughout: the two keep in step exactly when all 16 bits agree
  (`SampleClock.InStepExactly`).
- The tiers agree after samples in order; out of order they agree exactly when no
  sample is late for the finer tier only (`Pyramid.TiersAgreeExactly`).
- The dead time across a restart is kept only because the wait count is at least
  the dead time; the routine itself does not require it
  (`GateDriver.DeadTimeExactly`).

## Model

| member | source | states |
|---|---|---|
| `Crc.CRC16` | apps/hil-go/internal/frame/frame.go:55-68 | The nested register loops compute the remainder of dividing the message, bit by bit, by x^16+x^12+x^5+1 from an all-ones start (CRC-16/CCITT-FALSE), for messages of any length |
| `Crc.FoldIsLinear` | apps/hil-go/internal/frame/frame.go:57-65 | The checksum is linear: the difference of two checksums depends on the difference of the messages alone |
| `Crc.BurstDetected` | apps/hil-go/internal/frame/frame.go:55-68 | Two messages of equal length that differ, but only within 16 consecutive bits, never have the same checksum |
| `Crc.OddErrorsDetected` | apps/hil-go/internal/frame/frame.go:55-68 | An odd number of wrong bits anywhere always changes the checksum |
| `CrcDistance.ReturnsExactly` | apps/hil-go/internal/frame/frame.go:57-65 | The period of the shift step is 32767: a register that does not return after 217, 1057 or 4681 shifts returns after n shifts if and only if n is a multiple of 32767 |
| `CrcDistance.PowerIsOneExactly` | apps/hil-go/internal/frame/frame.go:57-65 | x^n is 1 modulo the generator if and only if n is a multiple of 32767 |
| `CrcDistance.TwoErrorsDetectedExactly` | apps/hil-go/internal/frame/frame.go:55-68 | Two wrong bits in a message of any length change the checksum if and only if their distance is not a multiple of 32767 |
| `CrcStart.ZeroMessageIsSeen` | apps/hil-go/internal/frame/frame.go:55-68 | No message of zero bytes, of any length, has the checksum zero |
| `CrcStart.LeadingZerosExactly` | apps/hil-go/internal/frame/frame.go:55-68 | Zero bytes put in front of any message leave its checksum the same if and only if the number of their bits is a multiple of 32767 |
| `CrcStart.CheckValue` | apps/hil-go/internal/frame/frame.go:54-68 | The checksum of the characters 1 to 9 is 0x29B1, the check value of CRC-16/CCITT-FALSE |
| `Crc.Split` | src/ps_app/telemetry.c:133-135 | The two trailer bytes carry the register, low byte first |
| `Crc.JoinComparesRegisters` | apps/hil-go/internal/frame/frame.go:93-94 | Comparing the joined trailer bytes with the register decides whether they carry the checksum, both ways |
| `Frame.Decode` | apps/hil-go/internal/frame/frame.go:71-117 | Every outcome of decoding, check by check: too short, bad sync, bad burst size, bad checksum, or the frame |
| `Frame.DecodeInvertsEncode` | apps/hil-go/internal/frame/frame.go:71-117 | Decoding yields a frame if and only if the buffer starts with the well-formed datagram of that frame |
| `Frame.DamagedSamplesRejected` | apps/hil-go/internal/frame/frame.go:91-96 | A datagram whose sample bytes suffered a burst of at most 16 bits, or an odd number of flips, is rejected for its checksum |
| `Frame.TwoWrongBitsRejected` | apps/hil-go/internal/frame/frame.go:91-96 | A datagram with any two wrong bits in its sample bytes is rejected for its checksum; no datagram is long enough for two to cancel |
| `Layouts.RefusedExactly` | apps/hil-go/internal/frame/frame.go:71-96 | Which buffers are refused for which reason: the three error outcomes, each if and only if a condition on length, letters, count and checksum |
| `Layouts.DatagramLayout` | src/ps_app/telemetry.c:101-135 | Where sequence number, flags, count and each field of each sample of a well-formed datagram lie, by byte offset |
| `Telemetry.Sender.constructor` | src/ps_app/telemetry.c:74-80 | After initialisation nothing is pending and nothing has been sent |
| `Telemetry.Sender.Collect` | src/ps_app/telemetry.c:89-97 | One sample and the flags enter the burst; the burst is the unsent end of the push history |
| `Telemetry.Sender.BuildFrame` | src/ps_app/telemetry.c:101-135 | The static buffer holds the well-formed datagram of the sequence number, flags and burst |
| `Telemetry.Sender.Send` | src/ps_app/telemetry.c:101-147 | A full burst becomes exactly one more datagram; sequence number and counters advance modulo 2^32 |
| `Telemetry.Sender.Push` | src/ps_app/telemetry.c:83-148 | After every push the datagrams are those of the full bursts of the history, earlier datagrams are unchanged, and the two counters together tell how many there are, modulo 2^32 |
| `Telemetry.WireRoundTrip` | src/ps_app/telemetry.c:83-148 | After any number n of pushes decoding the datagrams in order gives the first 32*floor(n/32) samples, sequence numbers 0, 1, 2, ... modulo 2^32, and the flags of each burst's last sample |
| `GateDriver.Driver.constructor` | verification/cocotb/scripts/top_fullstack_mock.py:97-101 | The driver starts off, with all counters and flags clear |
| `GateDriver.Driver.Decide` | verification/cocotb/scripts/top_fullstack_mock.py:112-149 | The transition, output vector and wait counter of one clock in every mode |
| `GateDriver.Driver.GateStep` | verification/cocotb/scripts/top_fullstack_mock.py:103-162 | One clock of the driver takes the whole record to the specified next state and returns the vector of the mode it was in |
| `GateDriver.RunIsClocked` | verification/cocotb/scripts/top_fullstack_mock.py:150-160 | Over every run the counter and the pulse and dead-time flags are functions of how long the mode has been held |
| `GateDriver.CountersInRange` | verification/cocotb/scripts/top_fullstack_mock.py:141-160 | Over every run both counters stay between zero and their limits, so unbounded integers lose nothing |
| `GateDriver.ExactDwell` | verification/cocotb/scripts/top_fullstack_mock.py:112-160 | While enabled, every stay in a dead mode lasts exactly the dead time plus one clock, every stay in a level mode at least the minimum pulse plus one |
| `GateDriver.BoundedResponse` | verification/cocotb/scripts/top_fullstack_mock.py:112-160 | From any running state a constant command is reached and kept within two minimum pulses and two dead times, each plus one clock |
| `GateDriver.NeverTogether` | verification/cocotb/scripts/top_fullstack_mock.py:112-149 | Complementary switches never conduct in the same output |
| `GateDriver.DeadTimeKept` | verification/cocotb/scripts/top_fullstack_mock.py:103-162 | For all commands, enables and syncs, opposite switches of a pair are separated by at least dead time plus one outputs with both off, when the wait is at least the dead time |
| `GateDriver.Latches` | verification/cocotb/scripts/top_fullstack_mock.py:110-115 | No fault is ever raised and the wait counter is zero outside its mode |
| `GateDriver.ShortWaitBreaksDeadTime` | verification/cocotb/scripts/top_fullstack_mock.py:141-149 | With a wait shorter than the dead time some disable and restart brings opposite switches too close |
| `GateDriver.DeadTimeExactly` | verification/cocotb/scripts/top_fullstack_mock.py:103-162 | The dead time holds over all runs if and only if the wait count is at least the dead time |
| `GateInputs.StartsExactly` | verification/cocotb/scripts/top_fullstack_mock.py:110-116 | Over every run the driver leaves off exactly when the enable at the last sync was high and the command is zero, and then for zero |
| `GateInputs.OffUntilEnabled` | verification/cocotb/scripts/top_fullstack_mock.py:110-116 | Until a sync finds the enable high every output is off, whatever the commands |
| `GateInputs.WaitsExactly` | verification/cocotb/scripts/top_fullstack_mock.py:141-149 | Over every run the wait ends exactly when the enable has been low for as many clocks as it should |
| `GateInputs.MovesExactly` | verification/cocotb/scripts/top_fullstack_mock.py:117-160 | Over every run a running driver stops at once when disabled, leaves a level at the first other command after the minimum pulse, and a dead mode at the end of the dead time for the level commanded then |
| `GateInputs.SwitchesExactly` | verification/cocotb/scripts/top_fullstack_mock.py:37-42 | Which of the four switches conduct in each output: two, one or none, by the mode held |
| `GateInputs.CommandedSwitches` | verification/cocotb/scripts/top_fullstack_mock.py:103-162 | From any running state a constant command turns on the two switches of its level, and no others, within the bound |
| `Carrier.MockPwm.constructor` | verification/cocotb/scripts/top_fullstack_mock.py:61-73 | Advancing from reset by a phase lands on the triangle's closed form at that phase, for any height; below one the carrier rests at zero |
| `Carrier.MockPwm.StepBothEdges` | verification/cocotb/scripts/top_fullstack_mock.py:75-95 | One clock of the carrier, latching the references at both edges, and whether it was a valley |
| `Carrier.MockPwm.StepValleyOnly` | scripts/hil_fullstack_mock.py:167-178 | One clock of the variant that latches at the valley only |
| `Carrier.HalvesOfTriangle` | verification/cocotb/scripts/top_fullstack_mock.py:77-83 | The carrier is a triangle of period 2*cmax that takes each level from 0 to cmax-1 once in every half |
| `Carrier.TurnsExactly` | verification/cocotb/scripts/top_fullstack_mock.py:77-83 | Over every run from reset at any phase, peaks and valleys come exactly at the last clock of each half period |
| `Carrier.PulseIsCentred` | verification/cocotb/scripts/top_fullstack_mock.py:50-59 | Over every run a leg asks for one pulse a period, of the sign of its latched reference and centred on the valley, as many clocks to either side as the reference is large |
| `Carrier.HalfPeriod` | verification/cocotb/scripts/top_fullstack_mock.py:50-95 | Over any half period from an edge the leg state sums to the latched reference clamped to cmax either way |
| `Carrier.VoltSeconds` | verification/cocotb/scripts/top_fullstack_mock.py:50-95 | From reset at any phase, over any number of half periods, a leg delivers the sum of the clamped references latched at the edges |
| `Carrier.ValleyPeriod` | scripts/hil_fullstack_mock.py:30-38 | With valley-only latching a full period delivers twice the clamped reference |
| `Carrier.VoltSecondsValleyOnly` | scripts/hil_fullstack_mock.py:158-178 | The same sum over any number of full periods from reset at any phase |
| `Repair.MeasureStays` | verification/cocotb/scripts/hilbin_vs_c.py:65-73 | The durations of the completed dead stays of one leg, in one pass |
| `Repair.EstimateDeadTime` | verification/cocotb/scripts/hilbin_vs_c.py:55-76 | The estimate is the median of the completed dead stays of all legs, or the fallback when there are none |
| `Repair.StaysExactly` | verification/cocotb/scripts/hilbin_vs_c.py:65-73 | The durations are those of the maximal stays of a leg on level two or four that end before the stream does, each once, from the first row of the stay |
| `Repair.EveryLegIsMeasured` | verification/cocotb/scripts/hilbin_vs_c.py:65-73 | The duration of every such stay, on any leg, is among those measured |
| `Repair.EstimateIsFair` | verification/cocotb/scripts/hilbin_vs_c.py:65-76 | No leg counts more than another: renaming the legs leaves the estimate the same |
| `Repair.MedianIsMiddle` | verification/cocotb/scripts/hilbin_vs_c.py:76-76 | The median is the middle one of the durations in order of size, or the mean of the two in the middle, in whatever order they came |
| `Repair.MedianHalves` | verification/cocotb/scripts/hilbin_vs_c.py:76-76 | At least half of the durations are at most the median, and at least half are at least it |
| `Repair.EstimateIsRobust` | verification/cocotb/scripts/hilbin_vs_c.py:58-59 | While fewer than half of the measured dead stays are corrupted, however far off, the estimate lies in the range of the good ones |
| `Repair.DropRepeats` | verification/cocotb/scripts/hilbin_vs_c.py:107-114 | Rows identical to the one before them are dropped |
| `Repair.LostExits` | verification/cocotb/scripts/hilbin_vs_c.py:136-143 | The scan finds exactly the over-long dead rows of a leg and where their exits belong |
| `Repair.RepairDeadTimeHolds` | verification/cocotb/scripts/hilbin_vs_c.py:79-164 | The repaired stream and the report, with a given or an estimated dead time |
| `Repair.HeldAfterSort` | verification/cocotb/scripts/hilbin_vs_c.py:160-161 | The stable sort by time does not change which point is held at any instant |
| `Repair.SamplesAreEnough` | verification/cocotb/scripts/hilbin_vs_c.py:150-163 | Sampling a waveform at all instants where it has a point gives the same waveform |
| `Repair.RepairKeepsWaveform` | verification/cocotb/scripts/hilbin_vs_c.py:123-164 | At every instant each leg of the repaired stream equals the original, except inside the lost exit of an over-long dead row, where it is zero |
| `Repair.RepairInPlainTerms` | verification/cocotb/scripts/hilbin_vs_c.py:123-164 | At every instant a leg is 6 from the dead time after a row on 2 or 4 that is followed by a gap of more than five dead times, up to the next row, and as before everywhere else |
| `Repair.RepairedInstantsExactly` | verification/cocotb/scripts/hilbin_vs_c.py:145-163 | A repaired stream has one row, in order, for every instant at which the stream had one or a leg gets its exit back, and no other |
| `Repair.ReportCounts` | verification/cocotb/scripts/hilbin_vs_c.py:107-148 | The report counts the over-long dead rows of the three legs and the rows that repeat the one before |
| `Repair.RepairSettles` | verification/cocotb/scripts/hilbin_vs_c.py:136-164 | After the repair no dead row is followed by a gap over the limit |
| `Repair.RepairIdempotent` | verification/cocotb/scripts/hilbin_vs_c.py:79-164 | A second repair drops nothing, inserts nothing and changes nothing |
| `Repair.UnchangedExactly` | verification/cocotb/scripts/hilbin_vs_c.py:107-148 | A sorted stream passes unchanged if and only if it has no repeats and no over-long dead rows |
| `Repair.DefaultRepairKeepsWaveform` | verification/cocotb/scripts/hilbin_vs_c.py:116-164 | With the estimated dead time too, every leg is unchanged outside lost exits and zero inside them, and no dead row stays over-long: on a sorted stream the estimate is never negative |
| `Repair.DefaultRepairSettlesExactly` | verification/cocotb/scripts/hilbin_vs_c.py:116-164 | A second repair estimates anew and changes nothing if and only if no dead row is over-long by the new estimate; so whenever the estimate has not fallen |
| `RepairTwice.SecondRepairCuts` | verification/cocotb/scripts/hilbin_vs_c.py:116-164 | The case happens: a sorted stream of seven rows whose estimate falls from 10 to 5.5 by the first repair, so that the second cuts another stay |
| `GateStream.StreamHasNoRepeats` | verification/cocotb/scripts/hilbin_vs_c.py:107-108 | A change-triggered stream never has two identical consecutive rows |
| `StreamLevels.StreamTellsLevels` | verification/cocotb/scripts/hilbin_vs_c.py:90-98 | At every instant the last row of the stream holds, column by column, the outputs of the three drivers, each from its own inputs |
| `StreamLevels.DeadLevelsExactly` | verification/cocotb/scripts/hilbin_vs_c.py:65-73 | The levels taken for dead are those of the driver in its two dead modes, and no others |
| `GateStream.DeadVectorIsShort` | verification/cocotb/scripts/hilbin_vs_c.py:90-92 | A driver's output never stays on a dead vector for longer than the dead time plus one clock, whatever its inputs |
| `GateStream.GenuineStreamUntouched` | verification/cocotb/scripts/hilbin_vs_c.py:90-98 | On the event stream of three drivers the repair drops nothing and inserts nothing, when its limit covers one dead stay |
| `GateStream.EstimateIsExact` | verification/cocotb/scripts/hilbin_vs_c.py:55-76 | On an enabled stream the estimated dead time is exactly the driver's, or the fallback when no dead stay completes |
| `GateStream.DefaultRepairUntouched` | verification/cocotb/scripts/hilbin_vs_c.py:116-119 | With the estimated dead time too the repair leaves enabled streams alone, if a dead stay completes or the fallback's limit covers one |
| `GateStream.ShortLimitCutsStream` | verification/cocotb/scripts/hilbin_vs_c.py:119-143 | With a limit below one dead stay some genuine stream is cut |
| `GateStream.UntouchedExactly` | verification/cocotb/scripts/hilbin_vs_c.py:49-51 | The repair finds nothing over-long in any genuine stream if and only if its limit covers one dead stay |
| `GateStream.RepairIsIdentityExactly` | verification/cocotb/scripts/hilbin_vs_c.py:49-51 | The repair returns every genuine stream as it is if and only if its limit covers one dead stay |
| `Counters.WrapTracks` | apps/hil-go/internal/record/recorder.go:500-503 | Between readings less than 2^31 apart the wrap test is right, and only a repeated count fails to advance |
| `Capture.SerialOrder` | apps/hil-go/internal/record/recorder.go:441-444 | For epochs less than half the circle ahead and no more than half behind the 14-bit comparison is the true order (RFC 1982, section 3.2) |
| `Capture.SerialOrderExactly` | apps/hil-go/internal/record/recorder.go:441-444 | Within one turn of the circle the comparison is the true order if and only if the epoch is less than half a turn ahead and no more than half a turn behind |
| `Capture.SerialOrderTurns` | apps/hil-go/internal/record/recorder.go:441-444 | Further apart the decision repeats with every turn of the circle |
| `Capture.RunIsSound` | apps/hil-go/internal/record/recorder.go:314-326 | Over every run of arrivals the events held back are of the current epoch, so the test in the flush never fails, and both limits hold |
| `Capture.NewerStartsOver` | apps/hil-go/internal/record/recorder.go:458-471 | A newer epoch leaves nothing of what was there before |
| `Capture.KeepsNewestEpoch` | apps/hil-go/internal/record/recorder.go:446-472 | Over every run whose arrivals stay within reach of the newest epoch, the capture keeps the newest epoch and is exactly what that epoch's arrivals alone would have left |
| `CaptureTimeline.CanonicalForm` | apps/hil-go/internal/record/recorder.go:491-515 | Within one epoch the capture is a function of the sample stream and the event stream, not of their interleaving |
| `CaptureTimeline.OrderIndependent` | apps/hil-go/internal/record/recorder.go:271-284 | Two interleavings of the same streams leave the same capture |
| `CaptureTimeline.SamplesExact` | apps/hil-go/internal/record/recorder.go:491-508 | Through any number of wraps the stored samples are exactly the advancing ones, at their true distance from the first |
| `CaptureTimeline.AdvancingByFields` | apps/hil-go/internal/record/recorder.go:504-514 | The records are those of exactly the advancing samples, in order: each of the five measured words in its own place, and the true distance from the first sample |
| `CaptureTimeline.FirstPlacedExactly` | apps/hil-go/internal/record/recorder.go:291-296 | The first event is unwrapped to its true place if and only if it lies within reach of the base and not in an earlier counter block |
| `CaptureTimeline.FirstStoredExactly` | apps/hil-go/internal/record/recorder.go:291-311 | The first event is stored if and only if it does not precede the base, exactly under a condition on the counter block and the distance of the low words |
| `CaptureTimeline.FirstKeptWrongly` | apps/hil-go/internal/record/recorder.go:291-305 | Concrete first events outside that condition: two stored although they precede the base, one dropped although it does not |
| `CaptureTimeline.EventsPlaced` | apps/hil-go/internal/record/recorder.go:287-312 | Wherever the first event lies, all stored distances are right modulo 2^32 and only the cut at the base is off, by a whole number of counter blocks |
| `CaptureTimeline.FromBaseByFields` | apps/hil-go/internal/record/recorder.go:304-311 | The stored events are those from the base on, in order, each with its three leg vectors in their own places |
| `CaptureTimeline.EventsExact` | apps/hil-go/internal/record/recorder.go:287-312 | Over any event stream, the stored events are exactly those that do not precede the base at their true distances if and only if no event lies between the base and its shifted place |
| `CaptureTimeline.InReachKeptRightly` | apps/hil-go/internal/record/recorder.go:291-296 | A first event within reach of the base, and not in an earlier counter block, is enough for that |
| `CaptureTimeline.WholeDistancesExactly` | apps/hil-go/internal/record/recorder.go:309-311 | Every stored time stamp is the whole distance of its event if and only if the last event lies less than 2^32 cycles behind the base |
| `CaptureTimeline.CaptureExact` | apps/hil-go/internal/record/recorder.go:257-326 | Both streams at once, however they interleave: true distances for the advancing samples, and for the events from the base on if and only if none lies between the base and its shifted place |
| `CaptureTimeline.EventsNeedASample` | apps/hil-go/internal/record/recorder.go:275-282 | Without a sample no event is ever stored |
| `CaptureCounts.EventsAreAccounted` | apps/hil-go/internal/record/recorder.go:257-326 | Over every run of one epoch, every event is held back, stored, too early for the base, or counted as lost |
| `CaptureCounts.LostExactly` | apps/hil-go/internal/record/recorder.go:275-279 | An event is counted as lost if and only if two million are in hand and it is not too early |
| `CaptureCounts.NothingLostBelow` | apps/hil-go/internal/record/recorder.go:271-285 | So nothing is counted as lost before that many events have come |
| `SampleClock.Clock.Seconds` | apps/hil-go/cmd/gateway/sampletime.go:18-41 | One reading of the live clock: the new state, the answer, and whether it is accepted |
| `SampleClock.LaterGuardsIdle` | apps/hil-go/cmd/gateway/sampletime.go:25-39 | Over every run the two later guards are never taken: what passes the first test is accepted with a later time |
| `SampleClock.EpochStartsOver` | apps/hil-go/cmd/gateway/sampletime.go:18-24 | A new epoch starts over: its readings are answered as if none had come before them |
| `SampleClock.TimesRise` | apps/hil-go/cmd/gateway/sampletime.go:18-41 | Within an epoch the accepted times rise strictly, for arbitrary readings |
| `SampleClock.OneTimelineFromFresh` | apps/hil-go/cmd/gateway/sampletime.go:18-41 | For samples of one epoch the live clock and the recorder accept the same samples at the same elapsed cycles |
| `SampleClock.AcceptedAreTrue` | apps/hil-go/cmd/gateway/sampletime.go:25-40 | The accepted times are the true elapsed counts, through any number of wraps |
| `SampleClock.AnswersAgreeExactly` | apps/hil-go/internal/record/recorder.go:495-508 | At one sample from clocks in step, both answer alike if and only if the 16-bit epoch is the base's or the recorder's time is back at its base |
| `SampleClock.StepTogetherExactly` | apps/hil-go/internal/record/recorder.go:495-508 | After one sample the clocks are still in step if and only if its 16-bit epoch is the base's |
| `SampleClock.InStepExactly` | apps/hil-go/cmd/gateway/sampletime.go:18-41 | Over a whole run that the recorder takes for one epoch the two clocks are in step throughout if and only if all 16 bits of the epochs are the same |
| `SampleClock.HighBitsPartTheClocks` | apps/hil-go/internal/record/recorder.go:495-497 | A run of two samples from the start, epochs 0 and 0x4000: the live clock starts over, the recorder carries on |
| `CaptureFile.WordsRoundTrip` | verification/cocotb/scripts/hilbin_vs_c.py:228-230 | Stored words read back as they were written |
| `CaptureFile.BodyRoundTrip` | verification/cocotb/scripts/hilbin_vs_c.py:225-250 | Counts, samples and events of a body read back exactly |
| `CaptureFile.FileRoundTrip` | verification/cocotb/scripts/hilbin_vs_c.py:209-259 | A whole file reads back as laid out if and only if the sample count and the metadata length fit their 32-bit fields |
| `Layouts.FileLayout` | verification/cocotb/scripts/hilbin_vs_c.py:209-230 | Where letters, version, metadata, alignment gap and body of a file lie, by byte offset |
| `Layouts.BodyLayout` | verification/cocotb/scripts/hilbin_vs_c.py:225-259 | Where the counts and each word of each row and event of a body lie, by byte offset |
| `Layouts.ReadsExactly` | verification/cocotb/scripts/hilbin_vs_c.py:209-259 | What the reader makes of any bytes at all: refused for the letters or for being cut short, or else version, metadata, and every word of every row and event from its place |
| `CaptureFile.MergeKeepsCapture` | apps/hil-go/internal/record/recorder.go:386-420 | Rewriting the metadata of a readable capture either changes nothing or keeps version, samples and events and shows the new metadata |
| `CaptureFile.CutMergeExactly` | apps/hil-go/internal/record/recorder.go:391-412 | Rewriting the metadata of a capture cut short at any byte falls out of range if and only if the cut lies in the alignment gap; cut earlier, the file is left alone |
| `CaptureFile.CutInGapFails` | apps/hil-go/internal/record/recorder.go:410-412 | A concrete cut for which the slice is out of range |
| `CaptureSeal.SortIsStable` | apps/hil-go/internal/record/recorder.go:206-208 | The sealed events are ordered, a permutation of the stored ones, and keep the order of equal time stamps |
| `CaptureSeal.SealedReadsBack` | apps/hil-go/internal/record/recorder.go:188-216 | The sealed file reads back as the stored samples in order and the sorted events if and only if the counts fit their fields |
| `CaptureSeal.MergedReadsBack` | apps/hil-go/internal/record/recorder.go:386-420 | So does the sealed file after its metadata was rewritten |
| `CaptureSeal.SealedRun` | apps/hil-go/internal/record/recorder.go:188-216 | For every run of arrivals the file reads back as exactly what the newest epoch's arrivals alone leave |
| `CaptureSeal.SealedRunIsTrue` | apps/hil-go/internal/record/recorder.go:188-216 | From the true times of a whole run to the reader: the rows are exactly the newest epoch's advancing samples, in order, with each measured word in its own column and the true distance from the first; the events are exactly those from the first sample on, in order of time, with their leg vectors |
| `Recorder.Recorder.constructor` | apps/hil-go/internal/record/recorder.go:95-100 | A new recorder has no file and is inactive |
| `Recorder.Recorder.OpenFile` | apps/hil-go/internal/record/recorder.go:129-146 | The new file holds header, alignment gap and a zero count |
| `Recorder.Recorder.Start` | apps/hil-go/internal/record/recorder.go:109-159 | Starting seals the old file, opens the next generation's, and nothing has arrived at it; the clock rate and the extra metadata are reset |
| `Recorder.Recorder.SetMetadata` | apps/hil-go/internal/record/recorder.go:161-173 | Extra metadata is remembered until the next start, and an empty set of it is ignored |
| `Recorder.Recorder.PrepareEpoch` | apps/hil-go/internal/record/recorder.go:446-472 | The state after admitting an epoch, and whether it is admitted; a restart leaves the file as that of an empty capture |
| `Recorder.Recorder.StartOver` | apps/hil-go/internal/record/recorder.go:458-470 | The restart in place, for the fields and for the file |
| `Recorder.Recorder.AppendPWMEvent` | apps/hil-go/internal/record/recorder.go:287-312 | One event is unwrapped and stored, dropped before the base, or counted as lost at the limit |
| `Recorder.Recorder.FlushPendingPWM` | apps/hil-go/internal/record/recorder.go:314-326 | The events held back are stored in order, and none is lost |
| `Recorder.Recorder.FirstSample` | apps/hil-go/internal/record/recorder.go:491-494 | The first sample sets the base and releases the events held back |
| `Recorder.Recorder.AdvanceClock` | apps/hil-go/internal/record/recorder.go:491-508 | The sample clock after one admitted sample, and the elapsed cycles when the sample is kept |
| `Recorder.Recorder.PutRow` | apps/hil-go/internal/record/recorder.go:509-513 | The seven words of a row follow what the buffer held |
| `Recorder.Recorder.AdmitSample` | apps/hil-go/internal/record/recorder.go:483-490 | A restart in the middle of a batch discards the rows still in the buffer, and only a restart does |
| `Recorder.Recorder.AddSample` | apps/hil-go/internal/record/recorder.go:482-514 | File and buffer together hold the rows of the capture after each sample of a batch |
| `Recorder.Recorder.FlushBuffer` | apps/hil-go/internal/record/recorder.go:516-523 | The buffered rows end up behind those of the file and are counted as written |
| `Recorder.Recorder.WriteBatch` | apps/hil-go/internal/record/recorder.go:474-524 | A batch of the open generation takes the capture to its state after these samples and counts as written the rows it leaves, any other batch changes nothing; the file position is again countOff+4+28*sampleCount |
| `Recorder.Recorder.HoldOrPlace` | apps/hil-go/internal/record/recorder.go:275-283 | An admitted event waits for the base or is stored; losses are counted |
| `Recorder.Recorder.SubmitPWM` | apps/hil-go/internal/record/recorder.go:257-285 | A packet takes the capture to its state after these events, losses are counted exactly, a given clock rate is taken over, and the file position invariant holds |
| `Recorder.Recorder.SealFile` | apps/hil-go/internal/record/recorder.go:193-216 | The file becomes header, sample count, rows, event count and sorted events |
| `Recorder.Recorder.Stop` | apps/hil-go/internal/record/recorder.go:175-236 | Stopping leaves the sealed file of the capture, its metadata rewritten if extra was set, and no open file |
| `Recorder.SessionIsRun` | apps/hil-go/internal/record/recorder.go:426-439 | Any session of bursts and packets leaves what its arrivals leave, wherever the bursts begin and end |
| `Recorder.SealedSession` | apps/hil-go/internal/record/recorder.go:175-236 | The file sealed after any session reads back as exactly what the newest epoch's arrivals alone leave |
| `Recorder.SessionReadsTrue` | apps/hil-go/internal/record/recorder.go:109-236 | From the true times of any session to the file its stop leaves, metadata rewritten or not: the newest epoch's samples and events at their true distances, column by column |
| `StopProtocol.EveryRunKeepsInv` | apps/hil-go/internal/record/recorder.go:175-187 | What every interleaving of sample and event submitters, loop, start and stop keeps: the queue order, the flush behind everything, the barrier |
| `StopProtocol.SealedFilesComplete` | apps/hil-go/internal/record/recorder.go:183-191 | Every sealed file holds exactly the bursts enqueued for its generation, in that order, and exactly the packets placed in it |
| `StopProtocol.SealIsFinal` | apps/hil-go/internal/record/recorder.go:176-187 | Once a file is sealed nothing more is enqueued for its generation or placed in it |
| `StopProtocol.NothingGoesAstray` | apps/hil-go/internal/record/recorder.go:248-253 | The loop discards no burst, every sample offered is in an accepted burst or counted as dropped, and the queue stays within 512 |
| `StopOutcomes.ActiveExactly` | apps/hil-go/internal/record/recorder.go:175-177 | Over every interleaving the flag is up exactly from the end of a start to the next stop or start |
| `StopOutcomes.RefusedExactly` | apps/hil-go/internal/record/recorder.go:239-247 | A submission is turned away if and only if it is empty or finds the flag down; what is taken goes to the generation it found |
| `StopOutcomes.LostExactly` | apps/hil-go/internal/record/recorder.go:249-253 | Over every interleaving a burst is lost if and only if it finds 512 items in the queue, which is all there ever are |
| `StopOutcomes.LogsAreExact` | apps/hil-go/internal/record/recorder.go:248-253 | The accepted and placed logs hold exactly the submissions that were taken, each once, and the dropped samples are exactly those of the submissions lost to a full queue |
| `StopOutcomes.EveryoneIsAccountedFor` | apps/hil-go/internal/record/recorder.go:239-285 | A submission that is not empty, found the recorder active and has returned is once in the log of its generation, or its samples are once among those dropped |
| `StopOutcomes.ProcessedOrCounted` | apps/hil-go/internal/record/recorder.go:175-254 | Processed before the seal or counted as dropped: once the file of its generation is sealed such a submission is in it, or its samples are among those dropped |
| `StopProtocol.TakenIsWritten` | apps/hil-go/internal/record/recorder.go:239-285 | A submission that was taken, of samples or of events, is in the sealed file of its generation |
| `StopProtocol.AdmittedHoldsOff` | apps/hil-go/internal/record/recorder.go:258-267 | A submission past the active flag finds the file open and holds off its sealing until it leaves |
| `StopProtocol.CallsComplete` | apps/hil-go/internal/record/recorder.go:175-187 | A start or stop call never hangs: without new submitters the steps left are bounded, and until the call returns one is possible |
| `CaptureSystem.TakenArrives` | apps/hil-go/internal/record/recorder.go:239-285 | Every sample or event of a submission that was taken arrives at the capture sealed for its generation |
| `CaptureSystem.OnlyTakenArrive` | apps/hil-go/internal/record/recorder.go:239-285 | Nothing else arrives at it |
| `CaptureSystem.EverySealedFileReadsTrue` | apps/hil-go/internal/record/recorder.go:175-285 | However submitters, loop, starts and stops interleave, every sealed file reads as the newest epoch's samples and events out of what was taken for its generation, at their true distances, column by column |
| `Ring.MaskIsSlot` | apps/hil-go/internal/ring/ring.go:34 | Masking a wrapping counter gives the slot of its true count |
| `Ring.Ring.SizeFor` | apps/hil-go/internal/ring/ring.go:20-24 | The size is the smallest power of two that holds the capacity |
| `Ring.Ring.constructor` | apps/hil-go/internal/ring/ring.go:20-26 | A new ring is empty and large enough |
| `Ring.Ring.Push` | apps/hil-go/internal/ring/ring.go:29-37 | A push appends exactly when the ring is not full, and says so |
| `Ring.Ring.PopN` | apps/hil-go/internal/ring/ring.go:40-56 | A pop moves the oldest items, as many as fit, in order |
| `Ring.Ring.Len` | apps/hil-go/internal/ring/ring.go:59-61 | The length is the number of buffered items |
| `Ring.Ring.Clear` | apps/hil-go/internal/ring/ring.go:65-67 | Clearing leaves an empty ring |
| `RingProtocol.EveryRunKeepsInv` | apps/hil-go/internal/ring/ring.go:29-67 | What every interleaving of one producer and one consumer keeps at each load, slot access and counter update |
| `RingProtocol.NeverOverfull` | apps/hil-go/internal/ring/ring.go:31 | The counters always differ by what is buffered, at most the capacity |
| `RingProtocol.NoSlotClash` | apps/hil-go/internal/ring/ring.go:34-52 | The slot about to be written is never the slot about to be read |
| `RingProtocol.InOrder` | apps/hil-go/internal/ring/ring.go:29-67 | The j-th item to leave is the j-th accepted, and the rest is buffered in order |
| `RingProtocol.PoppedThenBuffered` | apps/hil-go/internal/ring/ring.go:29-56 | Without a clear, what was popped followed by what is buffered is what was accepted |
| `RingProtocol.RejectedExactlyWhenFull` | apps/hil-go/internal/ring/ring.go:31-33 | A push is turned away if and only if the ring is full when the tail is read |
| `RingProtocol.PopTakesExactly` | apps/hil-go/internal/ring/ring.go:40-56 | Over every interleaving a pop takes the oldest items, as many as it asked for or all that were buffered when it read the head |
| `RingProtocol.PopEndsExactly` | apps/hil-go/internal/ring/ring.go:43-46 | It ends with nothing if and only if nothing is buffered then |
| `RingProtocol.ClearTakesExactly` | apps/hil-go/internal/ring/ring.go:65-67 | A clear removes exactly what was in the ring when it read the head; later items stay |
| `RingProtocol.NeverStuck` | apps/hil-go/internal/ring/ring.go:34-53 | Every masked index is in range in every reachable state |
| `Viewport.Controller.Request` | apps/hil-go/frontend/src/viewport.ts:85-98 | A request is ignored, replaces the pending window, or arms the one timer anew |
| `Viewport.Controller.Flush` | apps/hil-go/frontend/src/viewport.ts:100-108 | A fired timer turns the pending window into a fetch issued in the current generation |
| `Viewport.Controller.Settled` | apps/hil-go/frontend/src/viewport.ts:108-115 | A settled fetch is delivered only in its generation, and the next pending window gets a timer |
| `Viewport.SingleFlight` | apps/hil-go/frontend/src/viewport.ts:85-115 | Over all interleavings at most one fetch is under way, a timer is armed exactly while an idle controller has a pending window, and deliveries belong to the generation they were issued in |
| `Viewport.RequestStartsOver` | apps/hil-go/frontend/src/viewport.ts:92-97 | A new window asked of an idle controller leaves one armed timer that was never armed before, so no earlier one can fire |
| `Viewport.DeliversExactly` | apps/hil-go/frontend/src/viewport.ts:106-112 | Over all runs a fetch that succeeds is delivered, as the window fetched last, unless the session was reset since it was issued and there is a provider; a failed fetch, and every other step, delivers nothing |
| `Viewport.FlushAlwaysFetches` | apps/hil-go/frontend/src/viewport.ts:102 | The guard of a flush is never taken |
| `Viewport.DrainsToWanted` | apps/hil-go/frontend/src/viewport.ts:85-115 | Once requests stop at most three callbacks remain, one is always possible until the controller rests, and the last window fetched is the last one accepted |
| `Viewport.DeliveredIsWantedExactly` | apps/hil-go/frontend/src/viewport.ts:108-110 | A delivered response is still the wanted window if and only if no other request is pending, or only the same one with a bound that is not a number |
| `Viewport.RequestHonouredExactly` | apps/hil-go/frontend/src/viewport.ts:91 | The requested window becomes the wanted one unless it is in flight while another is pending |
| `Viewport.RepeatIgnoredExactly` | apps/hil-go/frontend/src/viewport.ts:70-91 | Asking again for a window changes nothing if and only if none of its bounds is NaN |
| `Viewport.SurprisesHappen` | apps/hil-go/frontend/src/viewport.ts:85-115 | A run in which the window in flight is no longer the pending one |
| `Pyramid.Tier.Push` | apps/hil-go/internal/pyramid/pyramid.go:43-69 | One sample opens a bucket, is folded into the last, or is dropped |
| `Pyramid.Tier.FoldInto` | apps/hil-go/internal/pyramid/pyramid.go:57-68 | The fold of all channels into a bucket |
| `Pyramid.Tier.Reset` | apps/hil-go/internal/pyramid/pyramid.go:124-130 | Resetting empties the tier |
| `Pyramid.TierIsGroupBy` | apps/hil-go/internal/pyramid/pyramid.go:43-69 | For every sequence of samples a tier is exactly the accepted samples grouped by key: keys ascending, and each bucket the count, attained bounds and mean of its group |
| `Pyramid.InOrderAllAccepted` | apps/hil-go/internal/pyramid/pyramid.go:39-47 | In non-decreasing order no sample is dropped |
| `Pyramid.AcceptedExactly` | apps/hil-go/internal/pyramid/pyramid.go:45-47 | The accepted samples are exactly those for which no earlier one has a later key |
| `Pyramid.KeyMeans` | apps/hil-go/internal/pyramid/pyramid.go:44-44 | The bucket of a sample covers its time; keys count widths away from zero on both sides |
| `Pyramid.TiersAgreeExactly` | apps/hil-go/internal/pyramid/pyramid.go:90-100 | For every sequence of samples the coarser tier is the finer one merged -- counts added, bounds kept, means weighted -- if and only if no sample is late for the finer tier only |
| `Pyramid.TiersAgree` | apps/hil-go/internal/pyramid/pyramid.go:90-100 | So after samples in order |
| `Pyramid.LateIsDropped` | apps/hil-go/internal/pyramid/pyramid.go:45-47 | A tier drops a sample if and only if an earlier one has a later key |
| `Quotients.CoarserKey` | apps/hil-go/internal/pyramid/pyramid.go:44 | The key at a coarser width is the finer key divided, also for negative times |
| `Tiles.Index.constructor` | apps/hil-go/internal/pyramid/pyramid.go:79-88 | Four empty tiers of the default widths |
| `Tiles.Index.Push` | apps/hil-go/internal/pyramid/pyramid.go:94-100 | Every tier takes in the sample |
| `Tiles.Index.Reset` | apps/hil-go/internal/pyramid/pyramid.go:124-130 | Every tier is emptied |
| `Tiles.Index.SelectTier` | apps/hil-go/internal/pyramid/pyramid.go:135-143 | The coarsest tier whose width does not exceed the pixel, or -1 if none |
| `Tiles.Index.Search` | apps/hil-go/internal/pyramid/pyramid.go:157-158 | Binary search finds the first bucket from a start time on |
| `Tiles.Index.Tile` | apps/hil-go/internal/pyramid/pyramid.go:148-163 | The buckets of the tile's key range and whether it is sealed, or nothing for indices out of range |
| `Tiles.TileHolds` | apps/hil-go/internal/pyramid/pyramid.go:155-160 | A tile holds exactly the buckets of its 1024 keys, in their order |
| `Tiles.Index.TileStartSec` | apps/hil-go/internal/pyramid/pyramid.go:166-171 | The nominal start, before which no bucket of the tile starts |
| `Tiles.SealedNeverChanges` | apps/hil-go/internal/pyramid/pyramid.go:145-163 | Once sealed, a tile and its flag stay the same under any further pushes |
| `Tiles.SealedExactly` | apps/hil-go/internal/pyramid/pyramid.go:145-161 | A tile is reported sealed if and only if no sample could change it |
| `Tiles.TilesPartition` | apps/hil-go/internal/pyramid/pyramid.go:155-160 | Consecutive tiles joined are the buckets of their whole range |
| `Tiles.TilesAreEverything` | apps/hil-go/internal/pyramid/pyramid.go:155-160 | Together the tiles hold every bucket once, in order, if and only if no bucket precedes time zero or lies behind them |
| `Tiles.DefaultTiersAgreeExactly` | apps/hil-go/internal/pyramid/pyramid.go:18-18 | The widths of the index run from 1 ms to 10 s, and each tier is the one below it merged 20, 25 and 20 buckets at a time, under exactly that condition |
| `Tiles.LateSampleSplitsTiers` | apps/hil-go/internal/pyramid/pyramid.go:90-93 | Two samples out of order for which the condition fails and the tiers part |
| `TileCache.Cache.Touch` | apps/hil-go/frontend/src/tilecache.ts:42-49 | A used entry becomes the most recent, and the oldest beyond the limit go |
| `TileCache.Cache.Ensure` | apps/hil-go/frontend/src/tilecache.ts:21-26 | A sealed hit is used, anything else is fetched |
| `TileCache.Cache.Window` | apps/hil-go/frontend/src/tilecache.ts:33-40 | The tiles present, in the order of the indices |
| `TileAnswers.WindowExactly` | apps/hil-go/frontend/src/tilecache.ts:33-40 | A window is put together index by index: the cached tile of every index that has one, sealed or not, and nothing for the others |
| `TileCache.Cache.Clear` | apps/hil-go/frontend/src/tilecache.ts:51 | Clearing empties the cache |
| `TileCache.TouchedMeans` | apps/hil-go/frontend/src/tilecache.ts:42-49 | Using an entry keeps keys distinct and the size within the limit, and adds nothing else |
| `TileCache.CacheIsRecent` | apps/hil-go/frontend/src/tilecache.ts:42-49 | After any sequence of uses, repeats included, the cache holds exactly the most recently used entries of all, up to its limit |
| `TileCache.LoadedExactly` | apps/hil-go/frontend/src/tilecache.ts:20-49 | After any sequence of uses a used tile is in the cache, as of its last use, if and only if fewer different others were used since than the cache can hold |
| `TileCache.LoadedInRunExactly` | apps/hil-go/frontend/src/tilecache.ts:20-51 | Over every run, however calls overlap: a tile is in the cache if and only if it was used since the last clear, and fewer different others than the cache can hold were used after that |
| `TileAnswers.AskFetchesExactly` | apps/hil-go/frontend/src/tilecache.ts:22-26 | Over every run a tile is asked of the server if and only if it is not cached as sealed, told by the uses so far |
| `TileAnswers.DeliveredIsCached` | apps/hil-go/frontend/src/tilecache.ts:26-28 | A response that arrives is cached from then on, sealed or not |
| `TileAnswers.EntriesWereReported` | apps/hil-go/frontend/src/tilecache.ts:21-49 | Over every run each cached tile, and each response on its way, is what the server reported for that key at some moment |
| `TileAnswers.ReportExactly` | apps/hil-go/internal/pyramid/pyramid.go:148-163 | What the server reports: the buckets of the 1024 keys of the tile, sealed if and only if a later bucket exists |
| `TileCache.OverlappingCallsEvict` | apps/hil-go/frontend/src/tilecache.ts:20-30 | Two overlapping calls for one tile each, with room for one: when both are through the first tile is gone |
| `TileCache.KeysLoadedExactly` | apps/hil-go/frontend/src/tilecache.ts:20-30 | For a call on its own, whatever indices it repeats: all are in the cache afterwards if and only if it can hold that many different ones |
| `TileCache.AllLoadedExactly` | apps/hil-go/frontend/src/tilecache.ts:20-30 | For a call on its own with different indices: the tiles asked for are all in the cache afterwards if and only if it can hold that many |
| `TileCache.CacheIsCoherent` | apps/hil-go/frontend/src/tilecache.ts:21-49 | With pushes, answers, deliveries, clears and resets in any order, every cached tile marked sealed is at every moment the current tile, and the cache within its limit, if and only if every reset finds nothing sealed in the cache or on its way |
| `TileCache.CoherentWithoutReset` | apps/hil-go/frontend/src/tilecache.ts:21-49 | So it always is in a run without a reset |
| `TileCache.ResetKeepsInvExactly` | apps/hil-go/cmd/gateway/main.go:1049-1049 | At one reset of the pyramid coherence survives if and only if nothing that claims to be sealed is cached or on its way |
| `TileCache.ResetLeavesStaleTile` | apps/hil-go/cmd/gateway/main.go:1049-1049 | A run that breaks it: a tile fetched as sealed before the reset is still cached as sealed when the server no longer has it |
| `DmaFrame.FieldInside` | src/ps_app/dma_telem.c:127-128 | A field inside one word is its bits of the frame |
| `DmaFrame.FieldAcross` | src/ps_app/dma_telem.c:129-133 | A field that crosses two words is put together from both |
| `DmaFrame.Extract` | src/ps_app/dma_telem.c:118-134 | For each of the five fields the shifts and masks give bits 42k to 42k+41 |
| `DmaFrame.SignExtend` | src/ps_app/dma_telem.c:136-139 | The sign extension reads 42 bits as two's complement |
| `DmaFrame.DecodeFrame` | src/ps_app/dma_telem.c:108-144 | All five fields, the time stamp and the epoch of any 256-bit frame |
| `DmaBits.EveryBitDecoded` | src/ps_app/dma_telem.c:108-144 | Each of the 256 bits, counted from the lowest bit of the first byte, is one bit of what is decoded: 42 for each field in two's complement, then 32 of the time stamp, then 14 of the epoch |
| `DmaFrame.DecodeInvertsPack` | src/ps_app/dma_telem.h:12-18 | Decoding any packed sample returns it |
| `DmaFrame.PackIsFrame` | src/ps_app/dma_telem.h:12-18 | Every packed sample is a 256-bit frame: four words whose decoding returns it |
| `DmaFrame.PackInvertsDecode` | src/ps_app/dma_telem.h:12-18 | Packing what was decoded restores every bit of the frame |

## Left out

- Recorder.Recorder.Stop: the renaming of the file, I/O errors and a failing re-marshalling of the metadata; what re-marshalling gives is handed in.
- Recorder.Recorder.Start: file names, directories, time stamps and the marshalling of the metadata; the metadata is an opaque byte string handed in.
- Recorder.Recorder.SetMetadata: the keys and values of the extra metadata; whether there is any is kept.
- Recorder.Recorder.WriteBatch: the 64-bit wrap of `wrapCycles` and `sampleCount`, and a write that fails, are not modelled.
- Recorder.Recorder.SubmitPWM: the epoch of the first event, which the source stores and never reads; the locks around the method are in `StopProtocol`.
- Repair.RepairKeepsWaveform: a negative dead time, which no caller means, is excluded.
- StopProtocol.EveryRunKeepsInv: a goroutine that submits repeatedly counts as several submitters; the preference of waiting writers in Go's read-write lock is not assumed; `Close` is not modelled.
- StopProtocol.CallsComplete: bounds the steps as long as no new submitter arrives; with an endless stream of them only the lock's preference for writers, which is not modelled, ends the wait.
- SampleClock.Clock.Seconds: returns exact cycles; the division by the clock rate and its rounding are left out.
- Frame.Decode: float payloads stay 32-bit words.
- Telemetry.Sender.Push: sockets and the printed error message; whether the socket took the datagram is a parameter.
- DmaFrame.DecodeFrame: the scaling of the raw integers to floats.
- Repair.RepairDeadTimeHolds: times are exact reals, so rounding of a time plus the dead time is not modelled.
- GateStream.GenuineStreamUntouched: the capture block in the FPGA is not part of this model; a stream is one row a change of any leg, starting from all legs off.
- Carrier.VoltSeconds: `cmax` is at least one, as the clock and PWM frequencies give it; below that there is no half period.
- Ring.Ring.constructor: the capacity is at most 2^62, the largest power of two that can be a slice length.
- RingProtocol.EveryRunKeepsInv: atomics are sequentially consistent; `Clear` is a consumer-side operation and not interleaved inside a pop.
- Viewport.Controller.Request: finite window numbers are exact reals; a request made from within a delivery is a request just before it settles.
- Pyramid.Tier.Push: values and times are exact reals; rounding, infinities and the range of the 64-bit key are left out.
- TileCache.CacheIsCoherent: decoding a tile is the identity, and a failed fetch is a request never answered.
- `CopyLatest`, the tile wire encoding and the view handlers: they add input and output, no invariant.
- The DMA ring's resynchronisation and splice avoidance: they depend on hardware and on sleeps that are not shown.
- The control state machine, the V/F ramp, the motor model, raw buffering and rendering: easier claims beside the above.
