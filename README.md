# blaze-lite flight software core, in Dafny

This project models the core of the blaze-lite avionics software (UCSC Rocketry, blaze-software) and proves properties of the model. Five parts are covered:

- **Flight-phase state machine** (`FlightState.h`, `FlightState.cpp`).
  - `FlightModel` holds the values: the phase enumeration, the `FlightState` record, the thresholds and dwell times, the shared debounce rule, and one `update` tick as the function `Step`.
  - `FlightControl.FlightStateMachine` is the class. Its fields are updated in place, and each method is proved equal to the value-level model.
  - The clock `millis()` is an explicit `now` parameter, a 32-bit value. Elapsed times wrap modulo 2^32.
- **Two-tier buffered storage engine** (`spiFlash.cpp`, with members and constants from `sdcard.h`), and the older single-buffer engine (`old_spiflash.cpp`).
  - `SpiFlashStore.SpiFlash` and `OldSpiFlashStore.OldSpiFlash` keep their buffers in arrays and their offsets in fields.
  - Each file descriptor is a `ByteSink.Sink`. A sink has a ghost byte stream, a ghost log of the byte count of every write call, and a scripted oracle that says, write by write, whether the write fails.
  - `IoQueue` holds the deferred-write queue entries and their comparator.
- **RFD900x radio driver** (`RFD900x.h`, `RFD900x.cpp`).
  - `RadioLink.RFD900x` holds the 256-byte receive ring, the 512-byte transmit ring and the pending AT text `continuing`.
  - `RingBuffer` holds the index arithmetic and the abstraction from a ring to the bytes it holds.
  - `AtCommands` holds the pure string side: Arduino `String` search and slicing, the `rocket-…-end` framing, `&`-separated `key=value` / `key?` pairs, the key-to-register mapping, `toInt`/`String(int)` and the reply text.
  - Bytes sent from the transmit ring go to a ghost `wire`. Every exchange with the radio (`+++`, `ATSn=…`, `ATSn?`, `AT&W`/`ATZ`, the reply sent back) is appended to a ghost `exchanges` log. What the radio sends back is a parameter: its reply to `+++`, and the script of its replies to the register reads of one command, taken one per read.
- **XOR-checksummed 17-byte sensor frame** (`dataPacket.h`, `dataPacket.cpp`): `DataPacket`.
- **Telemetry logger counters** (`telemetry_logger.cpp`): `Telemetry.TelemetryLogger`.

`getState` and `getPhase` are the reads-only functions `FlightStateMachine.GetState` and `GetPhase`. `getTxBufferUsage` is `RFD900x.GetTxBufferUsage`, which is `RingBuffer.Used` on the transmit indices.

Where the specification of the system and the code disagree, the model follows the code:

- The phase diagram lists UNARMED → ARMED → LAUNCH. In the code, UNARMED has no `break` of its own and runs ARMED's launch check, so `update` can move UNARMED → LAUNCH. See "## Findings".
- `PACKET_SIZE` is documented as the payload size. The builder uses it as the whole frame length (17 bytes), so at most 14 payload bytes fit.
- `enterATMode` tests `indexOf("OK") >= 0 || length() > 0`. Any reply that reads as non-empty counts as success, so the "OK" test adds nothing.
- Each reply is read by `recv` into `char resp[16]`, so at most 15 characters get through, and `String(resp)` stops at the first NUL. Every set (through its read-back) and every query makes one such read, so the replies are consumed one per read, in order.
- `getParameter` takes the text between the first and the last newline. An answer with a single newline yields that newline itself, and an answer without a newline yields the whole text.
- The constructor's `String continuing = "";` declares a local variable. The member `continuing` starts empty anyway, as the default `String`.
- When AT mode cannot be entered, `continuing` keeps all input, the frame included. When it can, line 117's remainder is computed and then discarded by line 181.

## Model

| member | source | states |
|---|---|---|
| FlightModel.Elapsed | blaze-lite/core/lib/flightState/FlightState.cpp:178 | `now - start` in uint32 arithmetic: the plain difference when start ≤ now, otherwise the difference plus 2^32 |
| FlightModel.OrdinalRoundTrip | blaze-lite/core/lib/flightState/FlightState.h:16-24 | UNARMED…ERROR carry the ordinals 0…6, and the ordinals 0…6 name the seven phases one to one |
| FlightModel.ResetClears | blaze-lite/core/lib/flightState/FlightState.cpp:30-49 | after reset at time t: phase UNARMED, altitude and maximum 0, logging and radio off, launch/apogee/landed times 0, no error flag, a 32-byte all-zero message, all three detection timers 0, previous altitude and velocity 0, timestamp and last-update time t |
| FlightModel.Debounce | blaze-lite/core/lib/flightState/FlightState.cpp:174-186 | the shared timer rule: it fires iff the condition holds, the timer is nonzero and at least the dwell has elapsed; a failed condition clears the timer, firing clears it, a first observation sets it to now, and otherwise it is kept |
| FlightModel.ObservationAtTimeZeroIsLost | blaze-lite/core/lib/flightState/FlightState.cpp:176-177 | a first observation at clock 0 leaves the timer at 0, the "not observed" value, so the next held tick cannot fire |
| FlightModel.AccelDiff | blaze-lite/core/lib/flightState/FlightState.cpp:204 | the value is the distance of the acceleration from 1: non-negative and one of the two differences |
| FlightModel.LandedConditionExact | blaze-lite/core/lib/flightState/FlightState.cpp:202-205 | the landed condition holds exactly when altitude < 5 m and 0.5 g < acceleration < 1.5 g |
| FlightModel.CalculateVelocity | blaze-lite/core/lib/flightState/FlightState.cpp:159-172 | a zero interval gives the previous velocity; otherwise velocity × elapsed seconds equals the altitude change |
| FlightModel.ZeroVelocityIsDerived | blaze-lite/core/lib/flightState/FlightState.cpp:66-68 | a velocity argument of exactly 0.0, with time passed, is replaced by the altitude change per second |
| FlightModel.StepMovesToSuccessor | blaze-lite/core/lib/flightState/FlightState.cpp:73-126 | a tick either keeps the phase or moves it to its successor (UNARMED/ARMED→LAUNCH→APOGEE→DESCENT→LANDED); LANDED and ERROR never change; the result is true iff the phase changed |
| FlightModel.Step | blaze-lite/core/lib/flightState/FlightState.cpp:50-126 | the definition of one `update`: time and altitude recorded, the maximum raised, a zero velocity derived, the phase switch, and the previous altitude and velocity kept |
| FlightModel.Transition | blaze-lite/core/lib/flightState/FlightState.cpp:73-120 | the definition of the phase switch, one debounce per phase and UNARMED falling into ARMED |
| FlightModel.StepTracksMaxAltitude | blaze-lite/core/lib/flightState/FlightState.cpp:51-63 | after a tick the maximum altitude is the larger of the old maximum and the sample's altitude, and the record holds the sample's altitude and time |
| FlightModel.RunMaxAltitudeMonotone | blaze-lite/core/lib/flightState/FlightState.cpp:61-63 | over any sequence of ticks the maximum altitude never decreases and bounds every sample's altitude |
| FlightModel.StepTimestamps | blaze-lite/core/lib/flightState/FlightState.cpp:73-120 | launchTime, apogeeTime and landedTime change exactly on entering LAUNCH, APOGEE and LANDED, to the tick's time; entering DESCENT stamps nothing; a tick never touches the logging, radio or error fields |
| FlightModel.TransitionTimestamps | blaze-lite/core/lib/flightState/FlightState.cpp:73-120 | the same stamping property for the phase switch alone, at any velocity |
| FlightModel.StepDescentAndLanding | blaze-lite/core/lib/flightState/FlightState.cpp:96-111 | APOGEE→DESCENT happens iff the effective velocity is below −1 m/s, with no dwell; DESCENT→LANDED requires the landed condition on this tick and a running landed timer at least 2000 ms old |
| FlightModel.StepLaunchTimer | blaze-lite/core/lib/flightState/FlightState.cpp:74-85 | in UNARMED or ARMED the launch debounce alone decides: the phase becomes LAUNCH iff it fires, otherwise the phase stays, and the launch timer becomes the debounce's |
| FlightModel.LaunchTimerInvariant | blaze-lite/core/lib/flightState/FlightState.cpp:174-186 | starting with a clear timer, while UNARMED or ARMED a running launch timer is the clock reading of a tick from which acceleration stayed above 2 g through the last tick |
| FlightModel.LaunchNeedsSustainedAcceleration | blaze-lite/core/lib/flightState/FlightState.cpp:174-186 | starting with a clear timer, a tick that launches is preceded by a tick j with a nonzero clock reading, acceleration above 2 g on every tick from j to the launch, and at least 100 ms between them |
| FlightModel.UnarmedLaunchesAsWritten | blaze-lite/core/lib/flightState/FlightState.cpp:74-85 | an UNARMED machine with a running launch timer launches on a 3 g tick 100 ms later |
| FlightModel.StepIntendedKeepsUnarmed | blaze-lite/core/lib/flightState/FlightState.cpp:74-85 | with a `break` after UNARMED, no tick leaves UNARMED or reports a change, and every other phase behaves as in the code |
| FlightModel.CStrLen | blaze-lite/core/lib/flightState/FlightState.cpp:154 | the length of a C string: every earlier byte is nonzero, and the byte at that index, if any, is NUL |
| FlightModel.CopyMessage | blaze-lite/core/lib/flightState/FlightState.cpp:154-155 | strncpy into the 32-byte message followed by the forced terminator: 32 bytes, the last one NUL |
| FlightModel.CopyMessageReadsBack | blaze-lite/core/lib/flightState/FlightState.cpp:154-155 | the stored message, read as a C string, is the first 31 characters of the message, or all of it when shorter |
| FlightModel.ErrorState | blaze-lite/core/lib/flightState/FlightState.cpp:151-157 | setError's record: phase ERROR, error flag set, the copied message, the time, and every other field unchanged |
| FlightModel.WithPhaseFlags | blaze-lite/core/lib/flightState/FlightState.cpp:129-141 | setPhase sets the phase and time; ARMED switches logging and radio on, UNARMED off, and other phases leave both alone; nothing else changes |
| FlightModel.GoodStatePreserved | blaze-lite/core/lib/flightState/FlightState.cpp:30-157 | reset, update, setError and setPhase keep the record invariant: a 32-byte NUL-terminated message, an all-zero message while no error is flagged, and altitude ≤ maximum |
| FlightControl.FlightStateMachine.constructor | blaze-lite/core/lib/flightState/FlightState.cpp:8-24 | the constructed controller is the reset state at clock 0 |
| FlightControl.FlightStateMachine.Reset | blaze-lite/core/lib/flightState/FlightState.cpp:30-49 | the new controller state is the reset state at `now`, and the invariant holds |
| FlightControl.FlightStateMachine.Init | blaze-lite/core/lib/flightState/FlightState.cpp:26-28 | init is reset |
| FlightControl.FlightStateMachine.CheckLaunchConditions | blaze-lite/core/lib/flightState/FlightState.cpp:174-186 | result and new launch timer are Debounce(acceleration > 2 g, old timer, now, 100 ms) |
| FlightControl.FlightStateMachine.CheckApogeeConditions | blaze-lite/core/lib/flightState/FlightState.cpp:188-200 | result and new apogee timer are Debounce(velocity < −0.5 m/s, old timer, now, 500 ms) |
| FlightControl.FlightStateMachine.CheckLandedConditions | blaze-lite/core/lib/flightState/FlightState.cpp:202-218 | result and new landed timer are Debounce(landed condition, old timer, now, 2000 ms) |
| FlightControl.FlightStateMachine.PhaseSwitch | blaze-lite/core/lib/flightState/FlightState.cpp:73-120 | the switch's new state and result are Transition's, and it never touches altitude, maximum or error fields |
| FlightControl.FlightStateMachine.Update | blaze-lite/core/lib/flightState/FlightState.cpp:51-127 | the new controller state and the result are those of Step on the sample (altitude, acceleration, velocity, now), and the invariant is kept |
| FlightControl.FlightStateMachine.SetPhase | blaze-lite/core/lib/flightState/FlightState.cpp:129-141 | the new record is WithPhase of the old one, and the invariant is kept |
| FlightControl.FlightStateMachine.SetLoggingEnabled | blaze-lite/core/lib/flightState/FlightState.cpp:143-145 | only the logging flag changes, to the argument |
| FlightControl.FlightStateMachine.SetRadioFlag | blaze-lite/core/lib/flightState/FlightState.cpp:147-149 | only the radio flag changes, to the argument |
| FlightControl.FlightStateMachine.SetError | blaze-lite/core/lib/flightState/FlightState.cpp:151-157 | the new record is ErrorState of the old one, and the invariant is kept |
| DataPacket.XorAppend | blaze-lite/core/lib/dataPacket/dataPacket.cpp:4-10 | the XOR of a concatenation is the XOR of the two XORs |
| DataPacket.XorSelfCancels | blaze-lite/core/lib/dataPacket/dataPacket.cpp:26 | a range followed by its own checksum has XOR 0 |
| DataPacket.CalculateChecksum | blaze-lite/core/lib/dataPacket/dataPacket.cpp:4-10 | the result is the XOR fold of buffer[0..length), and 0 for length 0 |
| DataPacket.FrameLayout | blaze-lite/core/lib/dataPacket/dataPacket.cpp:12-27 | the frame has 17 bytes: 0xAA, the sensor id, data[i] at i + 2 for i < min(dataLength, 14), zeros up to byte 15, and the XOR of bytes 0..15 last |
| DataPacket.Frame | blaze-lite/core/lib/dataPacket/dataPacket.cpp:12-27 | the definition of the 17-byte frame: header, sensor id, payload padded to 14 bytes, and the XOR checksum |
| DataPacket.FrameChecksumIsZero | blaze-lite/core/lib/dataPacket/dataPacket.cpp:26 | the XOR of all 17 bytes of a frame is 0 |
| DataPacket.FrameDropsExcess | blaze-lite/core/lib/dataPacket/dataPacket.cpp:21-23 | payload bytes past the 14th are dropped: the frame depends only on the first 14 |
| DataPacket.FrameInjective | blaze-lite/core/lib/dataPacket/dataPacket.cpp:17-23 | two payloads of the same length (at most 14) that give the same frame have the same sensor id and the same bytes |
| DataPacket.BuildPacket | blaze-lite/core/lib/dataPacket/dataPacket.cpp:12-27 | buffer[0..17) becomes the frame of the first min(dataLength, 14) data bytes, with no byte of an earlier packet surviving, and nothing past byte 17 changes |
| IoQueue.CmpIoPriorityIsStrictWeakOrder | blaze-lite/core/lib/sdcard.h:18-21 | the comparator is irreflexive, asymmetric and transitive, and its incomparability is transitive |
| IoQueue.TopHasLeastPriority | blaze-lite/core/lib/spi_flash/spiFlash.cpp:160-162 | an entry may be at the top iff it is queued and has the smallest priority value |
| IoQueue.Top | blaze-lite/core/lib/sdcard.h:68-72 | a reference choice of top: a queued entry whose priority value is at most every other's |
| IoQueue.UrgentEntryBecomesTop | blaze-lite/core/lib/spi_flash/old_spiflash.cpp:20-22 | an entry with a strictly smaller priority value than everything queued is the only possible top |
| IoQueue.TopIsServable | blaze-lite/core/lib/sdcard.h:18-21 | every non-empty queue has an entry to serve |
| ByteSink.ToChar | blaze-lite/core/lib/spi_flash/spiFlash.cpp:152-158 | conversion to `char` keeps the value modulo 256 and is the identity on −128…127 |
| ByteSink.Sink.Write | blaze-lite/core/lib/spi_flash/spiFlash.cpp:112-114 | a write consumes one oracle entry and logs its byte count, and either returns −1 with the stream unchanged or returns n with the n bytes appended |
| ByteSink.FillLevel | blaze-lite/core/lib/spi_flash/spiFlash.cpp:96-106 | the buffer fill after `total` bytes lies in 1…n, and is `total` when that fits |
| ByteSink.FillLevelStep | blaze-lite/core/lib/spi_flash/spiFlash.cpp:99-106 | a full buffer that is flushed and takes t more bytes (0 < t ≤ n) holds t |
| ByteSink.Rounds | blaze-lite/core/lib/spi_flash/spiFlash.cpp:99-106 | the number of full-buffer flushes while `total` bytes go through: 0 iff the bytes fit |
| ByteSink.RoundsStep | blaze-lite/core/lib/spi_flash/spiFlash.cpp:99-106 | refilling a full buffer costs exactly one more flush |
| ByteSink.MemCopy | blaze-lite/core/lib/spi_flash/spiFlash.cpp:96 | memcpy: the n destination bytes at the offset become the source bytes, and the rest of the destination is unchanged |
| ByteSink.MemZero | blaze-lite/core/lib/spi_flash/spiFlash.cpp:124 | memset to 0: every byte of the array is 0 |
| SpiFlashStore.OverflowFlushTest | blaze-lite/core/lib/spi_flash/spiFlash.cpp:100 | `err = flush() < 0` stores 1 iff the flush failed and 0 otherwise |
| SpiFlashStore.OverflowFlushTestIntended | blaze-lite/core/lib/spi_flash/spiFlash.cpp:100 | the intended test keeps the flush's code: negative, and nonzero, iff the flush failed |
| SpiFlashStore.OverflowFailureLooksPositive | blaze-lite/core/lib/spi_flash/spiFlash.cpp:100 | a flush failure of −1 becomes 1 as written and stays −1 as intended |
| SpiFlashStore.KFlushSuccessResult | blaze-lite/core/lib/spi_flash/spiFlash.cpp:152-158 | kflush's success result is the written byte count modulo 256, as a `char` |
| SpiFlashStore.KFlushSuccessResultIntended | blaze-lite/core/lib/spi_flash/spiFlash.cpp:152-158 | the intended success result is never negative |
| SpiFlashStore.KFlushTruncationExample | blaze-lite/core/lib/spi_flash/spiFlash.cpp:152-158 | a successful kflush of 200 bytes reads as negative, and of 2048 bytes as 0 |
| SpiFlashStore.KFlushTruncationCharacterised | blaze-lite/core/lib/spi_flash/spiFlash.cpp:152-158 | as written, a successful kflush reads as a failure exactly when count mod 256 ≥ 128; the intended result never does |
| SpiFlashStore.FillLevelExamples | blaze-lite/core/lib/spi_flash/spiFlash.cpp:99-106 | 264 bytes into an empty 256-byte buffer leave 8 buffered; into the default 512-byte buffer they all stay |
| SpiFlashStore.OverflowWritesAlternate | blaze-lite/core/lib/spi_flash/spiFlash.cpp:100-101 | the write calls of k rounds alternate: a full buffer at even positions and 0 bytes at odd ones |
| SpiFlashStore.DoubleFlushExample | blaze-lite/core/lib/spi_flash/spiFlash.cpp:100-101 | 513 bytes into an empty 512-byte buffer make one round whose write calls are 512 and 0 |
| SpiFlashStore.SpiFlash.constructor | blaze-lite/core/lib/spi_flash/spiFlash.cpp:44-51 | two fresh buffers of the given capacities (default pin 3, capacities 512 and 2048, as declared in sdcard.h:27), both offsets 0, an empty queue |
| SpiFlashStore.SpiFlash.Queue | blaze-lite/core/lib/spi_flash/spiFlash.cpp:82-85 | the entry (priority, bytes, data) is appended to the queue, the default priority is 4, and the result is 0 |
| SpiFlashStore.SpiFlash.Write | blaze-lite/core/lib/spi_flash/spiFlash.cpp:112-114 | the bytes go to the normal sink, with the sink's result |
| SpiFlashStore.SpiFlash.KWrite | blaze-lite/core/lib/spi_flash/spiFlash.cpp:116-118 | the bytes go to the kernel-log sink, with the sink's result |
| SpiFlashStore.SpiFlash.Flush | blaze-lite/core/lib/spi_flash/spiFlash.cpp:120-128 | one write call of the buffered byte count; on success the buffered bytes are appended to the sink, obuff is all zero, the offset is 0 and the result 0; on failure the result is −1 and buffer, offset and stream are unchanged |
| SpiFlashStore.SpiFlash.KFlush | blaze-lite/core/lib/spi_flash/spiFlash.cpp:152-158 | as Flush for kbuff, except that the success result is the byte count truncated to `char` |
| SpiFlashStore.SpiFlash.AppendPending | blaze-lite/core/lib/spi_flash/spiFlash.cpp:96-97 | the memcpy into obuff and the offset increase append the slice to the buffered bytes |
| SpiFlashStore.SpiFlash.AppendKPending | blaze-lite/core/lib/spi_flash/spiFlash.cpp:139-140 | the same for kbuff |
| SpiFlashStore.SpiFlash.OverflowRound | blaze-lite/core/lib/spi_flash/spiFlash.cpp:99-106 | one overflow round keeps "stream then buffer = start then data so far" and the fill level, and adds one flush to the count; a completed round makes two write calls, the full buffer and then 0 bytes, consuming two oracle entries; it reports 1 only after a failed first flush, which a healthy sink never gives |
| SpiFlashStore.SpiFlash.OverflowRoundIntended | blaze-lite/core/lib/spi_flash/spiFlash.cpp:100-101 | with the second flush removed, a round makes exactly one write call of the full buffer, and keeps the stream invariant and the fill level as OverflowRound does |
| SpiFlashStore.SpiFlash.Buffer | blaze-lite/core/lib/spi_flash/spiFlash.cpp:87-109 | 0 bytes give 0 and a null pointer −1, both changing nothing; on success the stream followed by the buffered bytes grows by exactly the data, the offset is the fill level and the write calls are two per full-buffer flush, the second empty; a failed flush returns 1 with a strict prefix placed and that failed write last; a healthy sink never gives 1 |
| SpiFlashStore.SpiFlash.AppendAll | blaze-lite/core/lib/spi_flash/spiFlash.cpp:93-108 | buffer after its argument checks: on success the same stream, fill level and write calls (OverflowWrites of the Rounds count); on failure the prefix placed, the write calls of its rounds and then the failed one |
| SpiFlashStore.SpiFlash.OverflowLoop | blaze-lite/core/lib/spi_flash/spiFlash.cpp:99-106 | the overflow loop from any placed prefix: every byte placed with two write calls per round, or a failed flush with a strict prefix placed; a healthy sink always completes |
| SpiFlashStore.SpiFlash.KOverflowRound | blaze-lite/core/lib/spi_flash/spiFlash.cpp:142-147 | one kLog overflow round: it reports 1 iff the flush fails or the capacity's truncated count is negative, and otherwise keeps the stream invariant and the fill level and counts one more full-buffer round; its single write call writes the full buffer |
| SpiFlashStore.SpiFlash.KLog | blaze-lite/core/lib/spi_flash/spiFlash.cpp:130-150 | buffer's checks and stream property for kbuff; on success one full-buffer write call per round (`FlushWrites(Rounds(…))`), on 1 the same for the placed prefix followed by the failing call; any overflow on a buffer whose capacity mod 256 is ≥ 128 returns 1 even on a healthy sink |
| SpiFlashStore.SpiFlash.KAppendAll | blaze-lite/core/lib/spi_flash/spiFlash.cpp:136-149 | kLog after its argument checks, with the same outcomes and the same write-call log |
| SpiFlashStore.SpiFlash.KOverflowLoop | blaze-lite/core/lib/spi_flash/spiFlash.cpp:142-149 | the kLog overflow loop from the first copy: every byte placed with one full-buffer write call per round, or 1 with a strict prefix placed and its calls logged; a healthy sink and a non-negative truncated count always complete |
| SpiFlashStore.FlushWritesFull | blaze-lite/core/lib/spi_flash/spiFlash.cpp:143 | each of the k write calls of kLog's rounds writes the whole buffer |
| OldSpiFlashStore.OldSpiFlash.constructor | blaze-lite/core/lib/spi_flash/old_spiflash.cpp:15-18 | a zeroed 4098-byte buffer, offset 0, an empty queue and nothing written to standard output |
| OldSpiFlashStore.OldSpiFlash.Queue | blaze-lite/core/lib/spi_flash/old_spiflash.hpp:51 | the entry is appended to the queue and nothing else changes; the priority is P_STD (3) unless one is given |
| OldSpiFlashStore.OldSpiFlash.Write | blaze-lite/core/lib/spi_flash/old_spiflash.cpp:68-78 | the bytes go to standard output and the result is always 0 |
| OldSpiFlashStore.OldSpiFlash.Flush | blaze-lite/core/lib/spi_flash/old_spiflash.cpp:80-84 | the buffered bytes go out, the buffer is all zero and the offset 0; there is no error path |
| OldSpiFlashStore.OldSpiFlash.AppendPending | blaze-lite/core/lib/spi_flash/old_spiflash.cpp:55-56 | the memcpy and offset increase append the slice to the buffered bytes |
| OldSpiFlashStore.OldSpiFlash.Buffer | blaze-lite/core/lib/spi_flash/old_spiflash.cpp:52-66 | the result is `bytes`; standard output followed by the buffered bytes grows by exactly the data; the offset is the fill level |
| OldSpiFlashStore.OldBufferFillExamples | blaze-lite/core/lib/spi_flash/old_spiflash.cpp:52-66 | 264 bytes stay buffered; 4100 bytes leave 2; two full buffers' worth leave a full buffer |
| RingBuffer.Advance | blaze-lite/core/lib/radio/RFD900x.cpp:292 | the next index stays inside the buffer |
| RingBuffer.Used | blaze-lite/core/lib/radio/RFD900x.cpp:275-281 | the usage formula is the distance from the read index forward to the write index: below the size, and 0 iff the indices are equal |
| RingBuffer.UsedSlot | blaze-lite/core/lib/radio/RFD900x.cpp:275-281 | the usage of the write index placed `count` slots after the read index is `count`, except that 512 of 512 lands on the read index |
| RingBuffer.ContentsWrite | blaze-lite/core/lib/radio/RFD900x.cpp:296-297 | writing the slot after the held bytes appends the byte when the ring is not full |
| RingBuffer.DrainPrefix | blaze-lite/core/lib/radio/RFD900x.cpp:190-193 | after the oldest k bytes are taken, the ring holds the rest in order |
| RingBuffer.ContentsPair | blaze-lite/core/lib/radio/RFD900x.cpp:217-219 | the bytes held at positions k and k + 1 sit in a slot and the slot after it |
| RingBuffer.SpanToSlot | blaze-lite/core/lib/radio/RFD900x.cpp:225-230 | the wrap-around length formula gives the number of bytes from the read index through the slot |
| RadioLink.FirstPacketFrom | blaze-lite/core/lib/radio/RFD900x.cpp:214-238 | the length through the first CR LF at or after k, or 0 when none exists |
| RadioLink.FirstPacketLength | blaze-lite/core/lib/radio/RFD900x.cpp:198-239 | 0 iff the bytes hold no CR LF; otherwise 2 ≤ L ≤ count, bytes L−2 and L−1 are CR LF and there is no earlier CR LF |
| RadioLink.NextRxIndex | blaze-lite/core/lib/radio/RFD900x.cpp:292 | `(idx + 1) % 256` is the next slot of the receive ring |
| RadioLink.NextTxIndex | blaze-lite/core/lib/radio/RFD900x.cpp:260 | `(idx + 1) % 512` is the next slot of the transmit ring |
| RadioLink.ScanStep | blaze-lite/core/lib/radio/RFD900x.cpp:216-232 | the pair of slots the scan reads is a CR LF exactly when the waiting bytes hold one at k, and the computed length is then k + 2 |
| RadioLink.RFD900x.constructor | blaze-lite/core/lib/radio/RFD900x.cpp:7-10 | both rings empty, no pending AT text, nothing sent and no exchanges |
| RadioLink.RFD900x.HandleRxByte | blaze-lite/core/lib/radio/RFD900x.cpp:291-299 | below 255 waiting bytes the byte is appended; at 255 it is dropped and nothing changes |
| RadioLink.RFD900x.ReadFromRxBuffer | blaze-lite/core/lib/radio/RFD900x.cpp:187-196 | min(maxLen, waiting) of the oldest bytes are moved into buf in order, the rest of buf is unchanged, and the ring holds what remains |
| RadioLink.RFD900x.GetFirstPacketLength | blaze-lite/core/lib/radio/RFD900x.cpp:198-239 | the result is FirstPacketLength of the waiting bytes, across the wrap, and nothing is consumed |
| RadioLink.RFD900x.FlushTxBuffer | blaze-lite/core/lib/radio/RFD900x.cpp:266-273 | exactly the waiting bytes go to the wire, in order, and the ring ends empty |
| RadioLink.RFD900x.AppendTx | blaze-lite/core/lib/radio/RFD900x.cpp:258-261 | the packet's bytes follow the waiting bytes in the ring, and the write index lands just past them |
| RadioLink.RFD900x.WriteToTxBuffer | blaze-lite/core/lib/radio/RFD900x.cpp:242-264 | succeeds iff len ≤ 32, touching nothing otherwise; when the packet does not fit, the waiting bytes go out first and the ring holds the packet; when it fits strictly, it is appended; when it fills the 512 slots exactly, the ring reads as empty and nothing is sent |
| RadioLink.RFD900x.WriteToTxBufferIntended | blaze-lite/core/lib/radio/RFD900x.cpp:242-264 | with `>=` in the fit test, the wire followed by the ring grows by exactly the packet, for every accepted packet |
| RadioLink.RFD900x.EnterATMode | blaze-lite/core/lib/radio/RFD900x.cpp:39-47 | "+++" is logged and the result is true iff the reply holds a character and does not start with NUL |
| RadioLink.RFD900x.ExitATMode | blaze-lite/core/lib/radio/RFD900x.cpp:49-52 | the save-and-restart exchange is logged |
| RadioLink.RFD900x.GetParameter | blaze-lite/core/lib/radio/RFD900x.cpp:54-62 | the register read is logged, and the value is taken, between the first and last newline, from the at most 15 characters read of the reply |
| RadioLink.RFD900x.ChangeParameter | blaze-lite/core/lib/radio/RFD900x.cpp:64-76 | the set is logged, and the result is true iff the value occurs at a position inside what was read of the read-back reply, so an empty read fails even for an empty value |
| RadioLink.RFD900x.ChangeNetID | blaze-lite/core/lib/radio/RFD900x.cpp:78-80 | register 3 is set to the decimal text of the id, and the result is true iff that text occurs in what is read of the reply |
| RadioLink.RFD900x.ChangeSerialSpeed | blaze-lite/core/lib/radio/RFD900x.cpp:82-84 | register 1 is set to the decimal text of the speed, and the result is true iff that text occurs in what is read of the reply |
| RadioLink.RFD900x.ChangeAirSpeed | blaze-lite/core/lib/radio/RFD900x.cpp:86-88 | register 2 is set to the decimal text of the speed, and the result is true iff that text occurs in what is read of the reply |
| RadioLink.RFD900x.GetNetID | blaze-lite/core/lib/radio/RFD900x.cpp:90-92 | register 3 is read and its value taken from the reply |
| RadioLink.RFD900x.GetSerialSpeed | blaze-lite/core/lib/radio/RFD900x.cpp:94-96 | register 1 is read and its value taken from the reply |
| RadioLink.RFD900x.GetAirSpeed | blaze-lite/core/lib/radio/RFD900x.cpp:98-100 | register 2 is read and its value taken from the reply |
| RadioLink.RFD900x.HandleSet | blaze-lite/core/lib/radio/RFD900x.cpp:133-151 | a known key's register is set to the value as toInt reads it; an unknown key causes no exchange |
| RadioLink.RFD900x.HandleQuery | blaze-lite/core/lib/radio/RFD900x.cpp:152-167 | a known key's register is read and answered with "key=value\n", the value taken from that read's reply; an unknown key adds nothing |
| RadioLink.RFD900x.HandlePair | blaze-lite/core/lib/radio/RFD900x.cpp:129-168 | one pair's exchange and reply line: a set or query of a known key causes its one exchange, only a query of a known key adds a line, from the reply given to its read, and anything else adds neither |
| RadioLink.RFD900x.HandlePairs | blaze-lite/core/lib/radio/RFD900x.cpp:122-170 | the pair loop's exchanges and reply are those of the '&'-separated pieces, in input order, after "\n"; each piece that reads gets the next reply of the script |
| RadioLink.RFD900x.RunCommand | blaze-lite/core/lib/radio/RFD900x.cpp:119-171 | only a command that starts and ends with '-' is parsed, its reads taking the replies in order; the reply always starts with "\n" |
| RadioLink.RFD900x.HandleATReceiving | blaze-lite/core/lib/radio/RFD900x.cpp:102-183 | the text up to the first NUL of `buf` is added; without a whole "rocket…end" frame the text is kept and nothing is sent; if the reply to "+++" reads as empty the text is kept; otherwise the framed command runs between "+++" and the save, its reads taking the script's replies in order, the reply is sent and the pending text becomes "" |
| RadioLink.ExactFillReadsEmpty | blaze-lite/core/lib/radio/RFD900x.cpp:253-261 | 480 waiting bytes plus a 32-byte packet put the write index on the read index, so 512 bytes read as none |
| AtCommands.IndexOf | blaze-lite/core/lib/radio/RFD900x.cpp:109-112 | the first occurrence at or after `from`, or −1 when none exists; a start at or past the end gives −1, even for an empty pattern |
| AtCommands.IndexOfChar | blaze-lite/core/lib/radio/RFD900x.cpp:124-127 | the first position of the character at or after `from`, or −1 |
| AtCommands.Substring | blaze-lite/core/lib/radio/RFD900x.cpp:116-117 | ordered bounds in range give the slice; the result is never longer than the text |
| AtCommands.EndFollowsStart | blaze-lite/core/lib/radio/RFD900x.cpp:109-116 | an "end" found from a "rocket" on starts after the whole "rocket", so the command slice is never reversed |
| AtCommands.FramedParts | blaze-lite/core/lib/radio/RFD900x.cpp:109-117 | a framed text is the prefix, "rocket", a command holding no "end", "end" and the rest; no earlier "rocket" exists |
| AtCommands.Framed | blaze-lite/core/lib/radio/RFD900x.cpp:109-115 | the definition of a complete frame: a "rocket" and, at or after it, an "end" |
| AtCommands.FramedCommand | blaze-lite/core/lib/radio/RFD900x.cpp:116 | the definition of the command: the text between the first "rocket" and the "end" after it |
| AtCommands.Inner | blaze-lite/core/lib/radio/RFD900x.cpp:120 | the command without its first and last character, for lengths ≥ 2 |
| AtCommands.InnerOfSingleDash | blaze-lite/core/lib/radio/RFD900x.cpp:120 | for the command "-" the bounds swap and the command stays "-" |
| AtCommands.PieceEndAmpFree | blaze-lite/core/lib/radio/RFD900x.cpp:124-127 | the piece ends at the next '&' or at the end of the command, with no '&' before it |
| AtCommands.SegmentsFrom | blaze-lite/core/lib/radio/RFD900x.cpp:122-170 | the pair loop has a piece left to visit iff its position is still inside the command |
| AtCommands.SegmentsFromAmpFree | blaze-lite/core/lib/radio/RFD900x.cpp:124-129 | no piece holds a '&' |
| AtCommands.SegmentsJoin | blaze-lite/core/lib/radio/RFD900x.cpp:122-170 | the pieces joined with '&' give back the command, less a final '&' |
| AtCommands.Segments | blaze-lite/core/lib/radio/RFD900x.cpp:122-129 | the definition of the pieces the pair loop visits, from position 0 |
| AtCommands.TwoPiecesOf | blaze-lite/core/lib/radio/RFD900x.cpp:122-170 | "a&b" with no '&' inside a or b and b non-empty splits into a and b |
| AtCommands.SinglePiece | blaze-lite/core/lib/radio/RFD900x.cpp:122-170 | a non-empty command with no '&' is one piece |
| AtCommands.ParsePair | blaze-lite/core/lib/radio/RFD900x.cpp:130-133 | a set iff the pair holds '=', a query iff it holds '?' but no '=' |
| AtCommands.ParsePairSplits | blaze-lite/core/lib/radio/RFD900x.cpp:133-153 | a set is key "=" value with no '=' in the key; a query is key "?" and more, with no '?' in the key |
| AtCommands.ParseSetOf | blaze-lite/core/lib/radio/RFD900x.cpp:133-135 | key "=" value with no '=' in the key parses back as that set |
| AtCommands.ParseQueryOf | blaze-lite/core/lib/radio/RFD900x.cpp:152-153 | key "?" with no '=' or '?' in the key parses back as that query |
| AtCommands.Register | blaze-lite/core/lib/radio/RFD900x.cpp:78-100 | each known key maps to one of the registers "1", "2", "3" |
| AtCommands.RegisterInjective | blaze-lite/core/lib/radio/RFD900x.cpp:78-100 | netid, serialspeed and airspeed map to distinct registers |
| AtCommands.ToIntDecimal | blaze-lite/core/lib/radio/RFD900x.cpp:143-144 | toInt reads back exactly what String(int) prints, negatives included |
| AtCommands.ToIntNotANumber | blaze-lite/core/lib/radio/RFD900x.cpp:143 | text starting with neither white space, a sign nor a digit reads as 0 |
| AtCommands.ToInt | blaze-lite/core/lib/radio/RFD900x.cpp:143 | the definition of toInt: leading white space, an optional sign and the longest digit prefix |
| AtCommands.Decimal | blaze-lite/core/lib/radio/RFD900x.cpp:79 | the definition of String(int), never empty: a "-" for negatives and the decimal digits |
| AtCommands.NatDecimalValue | blaze-lite/core/lib/radio/RFD900x.cpp:79 | the printed digits of n have the value n |
| AtCommands.LastIndexOfChar | blaze-lite/core/lib/radio/RFD900x.cpp:61 | the last position of the character, or −1 |
| AtCommands.ParameterValueLines | blaze-lite/core/lib/radio/RFD900x.cpp:54-62 | an echo line, a value line and a final newline read back as the value line; a single newline reads as "\n" |
| AtCommands.ParameterValue | blaze-lite/core/lib/radio/RFD900x.cpp:61 | the definition of the value: the text between the first and the last newline, as Arduino substring takes it |
| AtCommands.Received | blaze-lite/core/lib/radio/RFD900x.cpp:57-59 | what is read of a reply is a prefix of it, at most 15 characters long and holding no NUL; it stops early only at a NUL |
| AtCommands.CString | blaze-lite/core/lib/radio/RFD900x.cpp:107 | String(buf) is a prefix of the text holding no NUL, and stops early only at a NUL |
| AtCommands.CStringWhole | blaze-lite/core/lib/radio/RFD900x.cpp:107 | text without a NUL is taken whole |
| AtCommands.CStringHidesFrame | blaze-lite/core/lib/radio/RFD900x.cpp:107 | a frame behind a leading NUL is complete as text but String(buf) takes nothing of it |
| AtCommands.ReceivedShortReply | blaze-lite/core/lib/radio/RFD900x.cpp:57-59 | a reply of at most 15 characters without a NUL is read whole |
| AtCommands.ReceivedNonEmpty | blaze-lite/core/lib/radio/RFD900x.cpp:43-46 | a reply reads as non-empty iff it holds a character and does not start with NUL |
| AtCommands.Drop | blaze-lite/core/lib/radio/RFD900x.cpp:122-170 | the i-th reply left after n reads is the (n + i)-th reply |
| AtCommands.PairEvents | blaze-lite/core/lib/radio/RFD900x.cpp:129-168 | one pair causes at most one exchange |
| AtCommands.SetPairEvents | blaze-lite/core/lib/radio/RFD900x.cpp:142-150 | a set of a known key sets its register to toInt(value) |
| AtCommands.QueryPairReply | blaze-lite/core/lib/radio/RFD900x.cpp:158-166 | a query of a known key replies "key=" + the value read from the reply it gets + "\n" |
| AtCommands.EventsOfAppend | blaze-lite/core/lib/radio/RFD900x.cpp:122-170 | the exchanges follow the pairs in input order |
| AtCommands.EventsOf | blaze-lite/core/lib/radio/RFD900x.cpp:122-170 | the definition of the exchanges of a list of pairs, in order |
| AtCommands.RepliesOf | blaze-lite/core/lib/radio/RFD900x.cpp:122-170 | the definition of the reply lines of a list of pairs, each reading the reply after the reads before it |
| AtCommands.RepliesOfAppend | blaze-lite/core/lib/radio/RFD900x.cpp:122-170 | the reply lines follow the pairs in input order, and the pairs after a prefix read the replies left after the prefix's reads |
| AtCommands.CommandReply | blaze-lite/core/lib/radio/RFD900x.cpp:103 | the reply always starts with "\n" |
| AtCommands.DashedCommand | blaze-lite/core/lib/radio/RFD900x.cpp:119-121 | "-" + inner + "-" is run as the pieces of inner, which read the replies from the first on |
| AtCommands.TwoPairs | blaze-lite/core/lib/radio/RFD900x.cpp:122-170 | of two pieces, the second reads the reply after the first piece's reads |
| AtCommands.KnownQuery | blaze-lite/core/lib/radio/RFD900x.cpp:158-166 | a known key's query reads its register and answers "key=value\n" from the reply |
| AtCommands.SetThenQueryPairs | blaze-lite/core/lib/radio/RFD900x.cpp:133-167 | a set and then a query of a key: the set's exchange, then the query's, and the query's line is read from the reply after the set's reads |
| AtCommands.SetThenQueryReadsAgain | blaze-lite/core/lib/radio/RFD900x.cpp:64-76 | "-key=v&key?-" for a known key sets the register and then reads it again: the set's read-back takes the first reply and the query's line comes from the second |
| AtCommands.QueryTwicePairs | blaze-lite/core/lib/radio/RFD900x.cpp:152-167 | two queries of a key: two reads, the second line from the reply after the first query's reads |
| AtCommands.QueryTwiceReadsTwice | blaze-lite/core/lib/radio/RFD900x.cpp:54-62 | "-key?&key?-" for a known key reads the register twice and answers two lines, from the first and the second reply |
| AtCommands.SetEvents | blaze-lite/core/lib/radio/RFD900x.cpp:133-151 | the command "-key=value-", for a known key and a value without '&', causes exactly one exchange: its register set to toInt(value) |
| AtCommands.SetNotANumber | blaze-lite/core/lib/radio/RFD900x.cpp:142-150 | a set whose value does not start with white space, a sign or a digit sets the register to "0" |
| Telemetry.Inc32 | blaze-lite/core/lib/telemetry_logger.cpp:32-33 | uint32 `++`: one more, and 0 after 2^32 − 1 |
| Telemetry.NextBufferCount | blaze-lite/core/lib/telemetry_logger.cpp:32-38 | the batch counter after logReading is 0 iff it reached the interval, and otherwise one more, so it stays below the interval or at 0 |
| Telemetry.BufferCountAfter | blaze-lite/core/lib/telemetry_logger.cpp:31-41 | after any number of readings the batch counter is below the interval or 0 |
| Telemetry.BatchFills | blaze-lite/core/lib/telemetry_logger.cpp:31-41 | the counter rises one by one up to interval − 1, and the reading that reaches the interval empties it |
| Telemetry.BatchPeriodic | blaze-lite/core/lib/telemetry_logger.cpp:36-38 | the counter repeats with period `interval`: it counts the readings since the last flush |
| Telemetry.TelemetryLogger.constructor | blaze-lite/core/lib/telemetry_logger.h:11 | both counters 0, write priority 5, no header written; the flush interval is 50 unless one is given |
| Telemetry.TelemetryLogger.GetReadingCount | blaze-lite/core/lib/telemetry_logger.cpp:95-97 | the number of readings logged since construction, modulo 2^32 |
| Telemetry.TelemetryLogger.LogReading | blaze-lite/core/lib/telemetry_logger.cpp:31-41 | one more reading is counted in both counters, the batch counter follows NextBufferCount, and the result is true |
| Telemetry.TelemetryLogger.Flush | blaze-lite/core/lib/telemetry_logger.cpp:71-85 | the result is always true and the batch counter is 0; nothing else changes |
| Telemetry.TelemetryLogger.SetWritePriority | blaze-lite/core/lib/telemetry_logger.cpp:99-101 | the priority, a signed 8-bit `char`, is stored as given and nothing else changes |

## Left out

- Floating point: altitude, acceleration and velocity are exact reals. `float` rounding in `calculateVelocity` and in the threshold comparisons is not modelled.
- The clock: `millis()` is one `now` value per call. The source reads it up to three times in one `update`, and the model treats those readings as equal.
- Radio transport and timing: `init`, both `recv` loops, all `delay`s and the `Serial` debug prints are left out. The radio's answers to `+++` and to register reads are parameters. `send` is not part of this model; the reply it is given is logged as one `Send` exchange.
- Radio concurrency: the global `instance` pointer, `rxISR` and `serialEvent` are left out. `HandleRxByte` is an ordinary sequential method, so the interrupt racing the reader is not modelled.
- `serial.flush()` at the end of `flushTxBuffer` has no effect in the model: the bytes are on the wire as soon as they are written.
- RadioLink.RFD900x.HandlePairs: the replies are a script given in advance. The timeouts of `recv` (1000 ms and 250 ms) and bytes that arrive late are not modelled; a read past the end of the script reads as "". The same holds for RunCommand and HandleATReceiving.
- Plain `char` is taken as signed 8-bit (`ByteSink.Char8`), as on the x86 hosts that the POSIX calls and `spiUnittests.cpp` target. On ARM Arduino targets plain `char` is unsigned, and the conversions of `kflush` and `buffer` would give 0…255 instead.
- DataPacket.BuildPacket: it requires the payload and the frame to be different arrays. The `memset` at dataPacket.cpp:14 would wipe an aliased payload before it is copied, and that case is not modelled.
- AtCommands.ToInt: `toInt` returns a `long` assigned to `int`. Overflow of very long digit strings is not modelled.
- RingBuffer.Advance: it is stated for the two concrete capacities only (NextRxIndex, NextTxIndex), not as `(i + 1) % size` for any size.
- Storage I/O: `open`, `lseek`, `::read`, `::write`, `close`, the destructor and `std::cout` are left out. Each sink is a ghost stream with a failure oracle; `read` and `kread` are not modelled.
- SpiFlashStore.SpiFlash.Buffer: the `-2` result for a null obuff is unreachable, because the constructor always allocates both buffers. The same holds for KLog.
- SpiFlashStore.SpiFlash.constructor: it requires both capacities to be positive. With a zero capacity the overflow loop of `buffer`/`kLog` never ends.
- SpiFlashStore.SpiFlash.Write: a POSIX short write (fewer bytes than asked) is not modelled. The sink accepts all bytes or fails with −1.
- `getCS_PIN`/`setCS_PIN` are plain field accesses and have no model member.
- `tick()` is only declared, in both storage engines, and has no body to model.
- The 32-byte DataPacket class of the tests (`encodePacket`/`decodePacket`) has no implementation among the source files and is not part of this model. `sendPacket` is a serial write and is left out.
- Telemetry SD card: `init`, `writeCSVLine` and `close` are left out, and so are the `filename` and `dataFile` members. `headerWritten` is set only by `init`, and the model keeps its initial value.
- Telemetry.TelemetryLogger.Flush: the print of the reading count is left out.
- Sensor wrappers, `SensorData`, the deprecated barometer queue and the test programs are outside the modelled core.

## Findings

| source | as written | input that shows it | evidently intended | confidence | as-written member | corrected member |
|---|---|---|---|---|---|---|
| blaze-lite/core/lib/flightState/FlightState.cpp:74-85 | `case UNARMED:` has no `break` and falls into ARMED's launch check | an UNARMED machine with launch timer 50 and a 3 g sample at time 150 enters LAUNCH | UNARMED waits for `setPhase(ARMED)` and launches only from ARMED, as the phase diagram says | not executed | FlightModel.UnarmedLaunchesAsWritten | FlightModel.StepIntendedKeepsUnarmed |
| blaze-lite/core/lib/spi_flash/spiFlash.cpp:100 | `if (err = flush() < 0) return err;` assigns the comparison, so a failed flush makes `buffer` return 1; line 143 does the same in `kLog` | a sink failing with −1 on the overflow flush gives the result 1, which callers testing `< 0` read as success | `(err = flush()) < 0`, returning the negative code | not executed; plain `char` taken as signed | SpiFlashStore.OverflowFailureLooksPositive | SpiFlashStore.OverflowFlushTestIntended |
| blaze-lite/core/lib/spi_flash/spiFlash.cpp:100-101 | each overflow round calls `flush()` a second time, which writes the 0 bytes left and whose result is ignored | 513 bytes into an empty 512-byte buffer make the write calls 512 and 0; a sink failing on the second one goes unreported | one flush per round, so a round makes one write call | not executed | SpiFlashStore.SpiFlash.OverflowRound | SpiFlashStore.SpiFlash.OverflowRoundIntended |
| blaze-lite/core/lib/spi_flash/spiFlash.cpp:152-158 | `kflush` returns the written byte count converted to `char` rather than 0 | with a kbuff capacity of 200, a successful full flush returns −56, so `kLog` stops with 1 on a healthy sink; with the default capacity 2048, or the 256 of the tests, the truncated count is 0 and reads as success | return 0 on success, as `flush` does | not executed; plain `char` taken as signed | SpiFlashStore.KFlushTruncationExample | SpiFlashStore.KFlushSuccessResultIntended |
| blaze-lite/core/lib/radio/RFD900x.cpp:253 | the auto-flush test is `usage + len > TX_BUFFER_SIZE`, so a packet that fills the 512 slots exactly is not flushed first | 480 bytes waiting and a 32-byte packet: the write index lands on the read index, the ring reads as empty and the 512 bytes are never sent | flush when `usage + len >= TX_BUFFER_SIZE`, keeping one slot free as the receive ring does | not executed | RadioLink.ExactFillReadsEmpty | RadioLink.RFD900x.WriteToTxBufferIntended |
