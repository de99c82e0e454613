# RS-485 / Modbus RTU transport and sensor drivers of a weather station

This project is a Dafny model of the field-bus layer of an Arduino/ESP32
telemetry weather station:

- the `RS485Bus` class, which owns one UART and a direction (DE/RE) pin.
  A transfer clears and flushes, switches the line to transmit, writes a
  request, switches back, then captures raw bytes into a fixed-size buffer.
  Capture ends on an overall timeout, on inter-byte silence, or when the
  buffer is full;
- the frame extraction: the lowest index where a caller's prefix matches
  and a fixed-length window passes the Modbus CRC-16 check. Appendix B of
  "Modbus over Serial Line, Specification and Implementation Guide V1.02"
  defines that CRC: initial value 0xFFFF, reflected polynomial 0xA001,
  low byte first;
- the integer-decided sensor drivers built on it: wind direction, wind
  speed, PAR, evaporation, rain, illuminance, PM2.5/PM10, TVOC and the
  7-in-1 soil probe. Each one builds a function 0x03 (Read Holding
  Registers) or 0x06 (Write Single Register) request, asks the bus for a
  reply of a known shape, decodes big-endian register words, and checks
  the fault patterns and hard bounds.

Module layout, one file each:

- `Types`: bytes, small words, `Option`.
- `Hardware`: the UART, clock and pins the transport calls. It is not part
  of the repository. It holds oracles for arriving bytes and clock drift,
  and a trace of pin writes, serial writes and waits.
- `Crc16`: the CRC and frame validity.
- `Frames`: what extraction finds.
- `Capture`: the receive loop of `transferRaw` as a function on values
  (`CaptureRun`), and what it does with a reply, with an overflowing
  reply and with silence.
- `RS485`: `DirectionControl` and `RS485Bus`.
- `ModbusRtu`: the request and reply shapes the drivers share. It also
  holds the transaction helpers that the drivers inline.
- One module per driver.

The bus keeps a ghost history `exchanges`, one record per `transferRaw`
call. A record holds the request handed to the UART, the bytes captured,
the overall and inter-byte timeouts, and the bus state before and after
the call. A bus state (`BusState`) is the UART and clock, the pin levels,
the event trace, the capture buffer and length, the direction control and
the guard delays. `RS485Bus.Valid()` includes `Logged(exchanges)`: every
record is `Made`. When something was sent, its two states are related by
`Transferred`, the whole transfer cycle described below, with the capture
equal to `Capture.CaptureRun`. When nothing was sent, only the capture
length was reset.

Every driver operation keeps `Valid()`. It names the record it appended,
with `old(bus.State())` and `bus.State()` as its two states, so `Valid()`
says what the UART did during that exchange. A driver that makes several
reads returns them as a `trail`. The trail's records are `Linked`: each
starts in the state the previous one left, from `old(bus.State())` to
`bus.State()` (`RS485Bus.Ran`). A driver's contract also says which
requests it sent, in order, with which timeouts, and what it reports. That
outcome is stated as a function of the captures (for example
`WindDirection.Reading`).

The receive loop of the bus is proved against `Capture.CaptureRun`, a
recursive reference definition of the same loop over the UART's queue,
the batches still to arrive and the clock. `CaptureReply` returns the loop
states it went through; that trail certifies that its final state is
`CaptureRun` from the entry port (`Capture.TrailCapture`). The value
lemmas then say what the loop does: a reply whose pauses stay within the
inter-byte timeout and which fits the buffer is captured whole and the
capture stops on the silence after it, with later batches left to arrive
(`CaptureWholeReply`); a reply too long for the buffer fills it and leaves
the rest queued (`CaptureOverflow`); silence for the overall timeout gives
an empty capture (`CaptureTimesOut`). `RS485.TransferredReply`,
`TransferredOverflow` and `TransferredTimeout` carry these to
`transferRaw` and `transferAndExtractFixedFrame`.

The lemmas beside each driver give that outcome's two directions:

- `ReadingOfResponse`: the slave's normal response, after any bytes in
  which no frame starts, is accepted exactly when the source's checks
  pass, and is decoded to the register value.
- `ReadingSound`: an accepted reading is the decoded value of a reply
  that is a CRC-valid normal response of that slave.

The CRC lemmas are:

- `SealVerifies`: the bytes a driver seals verify.
- `VerifyIffSealed`: validity is exactly "the last two bytes are the
  CRC of the rest, low byte first".
- `SingleByteErrorDetected`: any single corrupted byte is detected.

## Model

| member | source | states |
|---|---|---|
| Crc16.Crc16Modbus | lib/RS485Modbus/src/RS485ModBus.cpp:226-238 | the loop returns the Modbus CRC-16 (init 0xFFFF, reflected polynomial 0xA001, eight shifts per byte) of exactly `len` bytes from `start` |
| Crc16.VerifyCrc16ModbusFrame | lib/RS485Modbus/src/RS485ModBus.cpp:240-246 | true exactly when the frame pointer is non-null, the length is at least 3, and the last two bytes are the CRC of the others, low byte first |
| Crc16.Seal | lib/RS485Modbus/src/RS485ModBus.h:112-114 | a sealed frame is two bytes longer than the body and begins with the body unchanged |
| Crc16.SealVerifies | lib/RS485Modbus/src/RS485ModBus.h:112-114 | every frame the drivers seal (CRC low byte, then high byte) passes the verification |
| Crc16.VerifyIffSealed | lib/RS485Modbus/src/RS485ModBus.cpp:240-246 | a frame is valid if and only if it has at least 3 bytes and equals the seal of all but its last two bytes |
| Crc16.CrcFromConcat | lib/RS485Modbus/src/RS485ModBus.cpp:228-236 | the CRC register after `a + b` is the register after `a`, fed on with `b`: the byte loop composes |
| Crc16.Crc16FirstByte | lib/RS485Modbus/src/RS485ModBus.cpp:227-236 | the CRC of a byte string starts from 0xFFFF updated with its first byte |
| Crc16.ShiftOnceCases | lib/RS485Modbus/src/RS485ModBus.cpp:231-234 | one shift step XORs in 0xA001 exactly when the low bit is set |
| Crc16.UpdateByteUnrolled | lib/RS485Modbus/src/RS485ModBus.cpp:229-235 | a byte update is the XOR of the byte into the register followed by eight shift steps |
| Crc16.ShiftsXor | lib/RS485Modbus/src/RS485ModBus.cpp:230-235 | the shift steps are linear over XOR |
| Crc16.CrcFromXor | lib/RS485Modbus/src/RS485ModBus.cpp:228-236 | the CRC update is linear: XOR-ed initial values and data give the XOR of the two CRCs |
| Crc16.CrcFromZerosNonZero | lib/RS485Modbus/src/RS485ModBus.cpp:228-236 | from a non-zero register no run of zero bytes returns the register to zero |
| Crc16.ErrorBlockCrcNonZero | lib/RS485Modbus/src/RS485ModBus.cpp:228-236 | an error pattern with one non-zero byte has a non-zero CRC from a cleared register |
| Crc16.SingleByteErrorDetected | lib/RS485Modbus/src/RS485ModBus.cpp:240-246 | flipping any non-empty set of bits in any one byte of a sealed frame, the CRC bytes included, makes the verification fail |
| Crc16.SingleBitErrorDetected | lib/RS485Modbus/src/RS485ModBus.cpp:240-246 | every single-bit error in a sealed frame is detected |
| Crc16.TrailerDeterminesCrc | lib/RS485Modbus/src/RS485ModBus.h:112-114 | two bodies have the same CRC bytes if and only if they have the same CRC |
| Crc16.LeWordUnique | lib/RS485Modbus/src/RS485ModBus.cpp:244 | the received CRC word, built from the last byte as high and the one before as low, equals a CRC exactly when the two bytes are that CRC's low and high bytes |
| Crc16.ReadRequestTestVector | lib/Sensors/WindDirectionSensor/src/WindDirectionSensor.cpp:11-14 | the request {01 03 00 00 00 01} carries the CRC 0x0A84, sent as 84 0A |
| Frames.ScanFrom | lib/RS485Modbus/src/RS485ModBus.cpp:132-163 | the index found from `from` on is a frame: the prefix matches and the window passes the CRC check. No index between `from` and it is a frame, and None means no frame at or after `from` |
| Frames.ExtractSpec | lib/RS485Modbus/src/RS485ModBus.cpp:119-165 | extraction returns the lowest frame index. It returns none exactly when an argument check fails or no index holds a frame |
| Frames.BadCrcContinues | lib/RS485Modbus/src/RS485ModBus.cpp:140-156 | a prefix match whose window fails the CRC does not stop the scan; it goes on to the next index |
| Frames.FrameAfterNoise | lib/RS485Modbus/src/RS485ModBus.cpp:119-165 | a valid frame after bytes where no frame starts is extracted, intact, at the index right after them |
| Capture.PollOnce | lib/RS485Modbus/src/RS485ModBus.cpp:88-104 | one pass of the loop body never captures past the buffer, never moves the clock back, and, when it goes on, captures a byte or moves the clock |
| Capture.PollTakes | lib/RS485Modbus/src/RS485ModBus.cpp:89-97 | a pass that finds bytes queued takes as many as there is room for, in order, marks the capture started and reads the clock |
| Capture.PollHears | lib/RS485Modbus/src/RS485ModBus.cpp:99-102 | a pass that finds nothing queued, after bytes started and at least the inter-byte timeout since the last batch, stops on that silence |
| Capture.PollWaits | lib/RS485Modbus/src/RS485ModBus.cpp:98-104 | a pass that finds nothing queued and no silence long enough waits 1 ms |
| Capture.AdvanceProgress | lib/RS485Modbus/src/RS485ModBus.cpp:87-105 | a turn that goes on moves nearer the overall deadline, or captures more |
| Capture.AdvanceKeeps | lib/RS485Modbus/src/RS485ModBus.cpp:87-105 | a turn keeps the loop state well formed (bytes started exactly when some are captured), and a turn that stops ends as `Ends` says |
| Capture.RunEnds | lib/RS485Modbus/src/RS485ModBus.cpp:87-105 | every loop run from a well-formed state ends as `Ends` says: the clock ties of each stop reason |
| Capture.CaptureEnds | lib/RS485Modbus/src/RS485ModBus.cpp:83-105 | every capture, timed from its start reading, ends as `Ends` says |
| Capture.WalkOn | lib/RS485Modbus/src/RS485ModBus.cpp:87-105 | a certified run of loop states extends by the state its last turn goes on to |
| Capture.WalkEnds | lib/RS485Modbus/src/RS485ModBus.cpp:87-105 | a certified run whose last turn stops is a complete trail |
| Capture.WalkStops | lib/RS485Modbus/src/RS485ModBus.cpp:87 | a run whose last state fails the loop guard ends on the overall timeout, or else on a full buffer |
| Capture.WalkNext | lib/RS485Modbus/src/RS485ModBus.cpp:88-104 | a pass that goes on extends the run by a state nearer the end |
| Capture.WalkQuiet | lib/RS485Modbus/src/RS485ModBus.cpp:99-102 | a pass that hears a silence ends the run on it |
| Capture.TrailRuns | lib/RS485Modbus/src/RS485ModBus.cpp:87-105 | the loop run from any state of a trail ends where the trail ends |
| Capture.TrailCapture | lib/RS485Modbus/src/RS485ModBus.cpp:83-105 | a trail that starts as the capture from a port starts is that capture: `CaptureRun` of the port is the trail's end |
| Capture.TrailEnds | lib/RS485Modbus/src/RS485ModBus.cpp:87-105 | where a trail ends, the capture ends as `Ends` says |
| Capture.IdlePass | lib/RS485Modbus/src/RS485ModBus.cpp:98-104 | a pass with nothing queued and no silence long enough is one idle millisecond |
| Capture.RunIdle | lib/RS485Modbus/src/RS485ModBus.cpp:98-104 | `k` quiet polls before the deadline and within the inter-byte timeout are `k` idle milliseconds |
| Capture.BurstPass | lib/RS485Modbus/src/RS485ModBus.cpp:89-97 | a batch that fits is taken whole, without the clock moving |
| Capture.SilencePass | lib/RS485Modbus/src/RS485ModBus.cpp:99-102 | a quiet poll exactly the inter-byte timeout after the last batch stops the capture on that silence |
| Capture.RunSilence | lib/RS485Modbus/src/RS485ModBus.cpp:98-102 | after bytes started and with nothing arriving, the capture waits until the inter-byte timeout since the last batch and stops on that silence, with the capture unchanged |
| Capture.RunOverflow | lib/RS485Modbus/src/RS485ModBus.cpp:89-97 | a batch that does not fit fills the buffer, leaves the rest queued, and the next guard stops the capture as full |
| Capture.RunFull | lib/RS485Modbus/src/RS485ModBus.cpp:87 | a full buffer before the deadline stops the capture at the next guard |
| Capture.CaptureTimesOut | lib/RS485Modbus/src/RS485ModBus.cpp:83-105 | with nothing arriving, the capture waits out the overall timeout 1 ms at a time and stops on it, empty |
| Capture.ReplyStart | lib/RS485Modbus/src/RS485ModBus.cpp:83-104 | a reply that starts `k` quiet polls in begins where `k` idle milliseconds leave the empty capture |
| Capture.ReplyEnd | lib/RS485Modbus/src/RS485ModBus.cpp:97-102 | right after a batch, a silence of the inter-byte timeout ends the capture on it, with later batches still to arrive |
| Capture.PieceStep | lib/RS485Modbus/src/RS485ModBus.cpp:88-104 | one piece of a reply, its pause waited out and its batch taken whole |
| Capture.PiecesHead | lib/RS485Modbus/src/RS485ModBus.cpp:88-104 | the first piece of a reply is taken and the rest of the reply keeps the conditions of `RunPieces` |
| Capture.RunPieces | lib/RS485Modbus/src/RS485ModBus.cpp:87-105 | a reply whose batches fit, with no pause longer than the inter-byte timeout and before the deadline, is taken whole: all its bytes in order |
| Capture.PiecesThenSilence | lib/RS485Modbus/src/RS485ModBus.cpp:87-105 | such a reply followed by a silence of the inter-byte timeout is taken whole and the capture stops on the silence |
| Capture.CaptureWholeReply | lib/RS485Modbus/src/RS485ModBus.cpp:83-105 | from the start of a capture with no clock drift: a reply after `k` quiet polls, with no pause longer than the inter-byte timeout, that fits the buffer and is followed by a silence past that timeout before the deadline, is captured exactly; the capture stops on the silence and every later batch is still to arrive |
| Capture.CaptureOverflow | lib/RS485Modbus/src/RS485ModBus.cpp:83-105 | from the start of a capture with no clock drift: a reply longer than the buffer fills it with its first bytes, stops as full, and leaves the bytes that did not fit queued |
| Capture.TrailWholeReply | lib/RS485Modbus/src/RS485ModBus.cpp:83-105 | a capture known by its trail ends as `CaptureWholeReply` says |
| Capture.TrailOverflow | lib/RS485Modbus/src/RS485ModBus.cpp:83-105 | a capture known by its trail ends as `CaptureOverflow` says |
| Capture.TrailTimesOut | lib/RS485Modbus/src/RS485ModBus.cpp:83-105 | a capture known by its trail ends as `CaptureTimesOut` says |
| RS485.RxBufferSize | lib/RS485Modbus/src/RS485ModBus.h:27-35 | the capture capacity is positive for every valid build configuration, so the capture buffer is never empty |
| RS485.DirectionControl.Level | lib/RS485Modbus/src/RS485ModBus.h:52-56 | the DE pin is driven high exactly when the requested direction equals `activeHighTX` |
| RS485.DirectionControl.Begin | lib/RS485Modbus/src/RS485ModBus.h:44-50 | with pin >= 0 the pin becomes an output and is set to the receive level; with pin -1 nothing changes |
| RS485.DirectionControl.SetTX | lib/RS485Modbus/src/RS485ModBus.h:52-56 | sets the pin to the level for the requested direction with one pin write, or does nothing with pin -1 |
| RS485.LevelsDiffer | lib/RS485Modbus/src/RS485ModBus.h:44-56 | the transmit and receive levels differ, and the receive level is LOW exactly when `activeHighTX` |
| RS485.TxPhaseBrackets | lib/RS485Modbus/src/RS485ModBus.cpp:69-80 | the transmit phase writes exactly the request bytes. Only the first and last events touch the direction pin, switching to transmit and back to receive |
| RS485.WrittenWrites | lib/RS485Modbus/src/RS485ModBus.cpp:73-75 | the byte-by-byte write loop puts exactly the request on the line, in order |
| RS485.RS485Bus.constructor | lib/RS485Modbus/src/RS485ModBus.cpp:3-5 | no UART is bound, the direction pin is -1 (active high), both guard delays are 200 us, the capture is empty, and the buffer holds `RX_BUFFER_SIZE` zero bytes |
| RS485.RS485Bus.Begin | lib/RS485Modbus/src/RS485ModBus.cpp:7-26 | binds the UART, then does what `DirectionControl.Begin` and `FlushInput` do. With pin >= 0 the pin joins the outputs and is set to the receive level, and the trace gains the pin-mode and pin-write events; with pin -1 outputs and levels do not change. The flush then empties the queue: the batches that land while it runs leave the arrival oracle, the bytes read are the old queue followed by those batches, the trace gains one 1 ms wait per byte read, and the clock moves on by as many milliseconds |
| RS485.RS485Bus.SetDirectionControl | lib/RS485Modbus/src/RS485ModBus.cpp:28-31 | replaces the direction control and sets the new pin to receive |
| RS485.RS485Bus.SetTimings | lib/RS485Modbus/src/RS485ModBus.cpp:35-38 | stores the two guard delays |
| RS485.RS485Bus.FlushInput | lib/RS485Modbus/src/RS485ModBus.cpp:40-47 | without a UART nothing happens. Otherwise every queued byte, including those that land while draining, is discarded with a 1 ms wait each, and the queue ends empty |
| RS485.RS485Bus.RawLength | lib/RS485Modbus/src/RS485ModBus.cpp:223 | the capture length, never beyond the buffer capacity |
| RS485.RS485Bus.RawData | lib/RS485Modbus/src/RS485ModBus.cpp:222 | the capture buffer itself |
| RS485.RS485Bus.SendFrame | lib/RS485Modbus/src/RS485ModBus.cpp:69-80 | the trace gains: switch to TX, pre-delay if non-zero, the bytes, flush, post-delay if non-zero, switch to RX |
| RS485.RS485Bus.ReadAvailable | lib/RS485Modbus/src/RS485ModBus.cpp:91-96 | the reported bytes are moved from the queue to the capture, in order, until the count is used up or the buffer is full |
| RS485.RS485Bus.Store | lib/RS485Modbus/src/RS485ModBus.cpp:95 | appends one byte to the capture and keeps the bytes past it zero |
| RS485.RS485Bus.DiscardOne | lib/RS485Modbus/src/RS485ModBus.cpp:44-45 | removes the next queued byte and waits 1 ms |
| RS485.RS485Bus.WriteAll | lib/RS485Modbus/src/RS485ModBus.cpp:73-75 | the UART is handed the request bytes, in order |
| RS485.RS485Bus.TakeQueued | lib/RS485Modbus/src/RS485ModBus.cpp:89-97 | with bytes queued: as many as there is room for move from the queue to the capture, in order, the queue keeps the rest, and the clock is read once, which returns the time before the read |
| RS485.RS485Bus.AwaitByte | lib/RS485Modbus/src/RS485ModBus.cpp:98-104 | with nothing queued: a silence stop exactly when bytes have started and the inter-byte timeout has passed since the last batch, with the clock read; otherwise a 1 ms wait, the clock read only once bytes have started |
| RS485.RS485Bus.Poll | lib/RS485Modbus/src/RS485ModBus.cpp:88-104 | one pass of the loop body does what `Capture.PollOnce` does: the same new loop state, and a silence stop exactly when `PollOnce` stops; every byte that lands is captured or left queued |
| RS485.RS485Bus.Pass | lib/RS485Modbus/src/RS485ModBus.cpp:87-104 | one pass after the guard: the trail of loop states walks on by one state nearer the end, or the trail ends at the state the pass stops in |
| RS485.RS485Bus.Turn | lib/RS485Modbus/src/RS485ModBus.cpp:87-105 | one turn of the loop, guard included: the trail walks on by one state nearer the deadline, or ends on a timeout, a full buffer or a silence exactly as `Capture.Advance` does |
| RS485.RS485Bus.CaptureReply | lib/RS485Modbus/src/RS485ModBus.cpp:83-105 | the loop's final state is the reference loop `Capture.CaptureRun` run from the entry port: the returned trail certifies it (`Capture.Captures`), and `Capture.TrailCapture` turns that certificate into the equation. The batches that landed during the capture are exactly the capture followed by what is left in the queue, and the batches that did not land stay to arrive. Bytes are left in the queue only when the buffer is full. The stop reasons keep the clock ties of `Capture.Ends`: a timeout stop lies at least the overall timeout after the entry reading, every other stop before it, a full stop holds a full buffer, and a silence stop comes after bytes started, with the queue empty, at least the inter-byte timeout after the reading taken after the last batch; with nothing captured only the timeout can stop it |
| RS485.RS485Bus.ClearCapture | lib/RS485Modbus/src/RS485ModBus.cpp:57-59 | the capture length is 0 and every buffer byte is 0 |
| RS485.RS485Bus.TransferRaw | lib/RS485Modbus/src/RS485ModBus.cpp:49-117 | without a UART, a request buffer or a length, nothing is sent, the capture is emptied, the buffer and the hardware do not change and the result is false. Otherwise the result is whether anything was captured, and `Transferred` relates the bus state before and after: the stale input drained with one 1 ms wait each; the transmit phase; the capture starting one wait per drained byte after entry; the pin back at the receive level; every byte that arrived captured, still queued or still to arrive; the stop reasons with their clock ties; and the capture equal to `Capture.CaptureRun` from the port the flush left, through the `Capture.Captures` certificate. The exchange history gains one record: the request, the capture, both timeouts and the bus states on entry and on return. That record is `Made`, so `Valid()` keeps every logged exchange tied to what the bus did |
| RS485.TransferredReply | lib/RS485Modbus/src/RS485ModBus.cpp:83-105 | in a transfer with no clock drift, a reply that comes `k` quiet polls after the capture starts as batches with no pause longer than the inter-byte timeout, then a silence past it, is captured exactly and whole; the capture stops on that silence, the queue is empty, and every batch after the silence is still to arrive |
| RS485.TransferredOverflow | lib/RS485Modbus/src/RS485ModBus.cpp:87-97 | in a transfer with no clock drift, a reply longer than the buffer fills it: the capture is the reply cut at the capacity, the stop is a full buffer, and the bytes of the last batch that did not fit stay queued |
| RS485.TransferredTimeout | lib/RS485Modbus/src/RS485ModBus.cpp:87-104 | in a transfer with no clock drift that hears nothing for the overall timeout, nothing is captured and the capture stops on the timeout, exactly the overall timeout after it started |
| RS485.MadeByCycle | lib/RS485Modbus/src/RS485ModBus.cpp:49-117 | a nonempty request whose before and after states are related by a transfer cycle, with the capture the bus holds after it, is an exchange `transferRaw` made |
| RS485.LoggedSnoc | lib/RS485Modbus/src/RS485ModBus.cpp:49-117 | logging one more exchange made keeps every record of the history made |
| RS485.LinkedSnoc | lib/Sensors/TVOCSensor/src/TVOCSensor.cpp:40-51 | a transfer starting in the state where a chain of transfers ended extends the chain to the state it leaves |
| RS485.LinkedAppend | lib/Sensors/SoilSensor7in1/src/SoilSensor7in1.cpp:53-89 | two chains of transfers, the second starting where the first ended, form one chain from the first start to the second end |
| RS485.RS485Bus.TransferCycle | lib/RS485Modbus/src/RS485ModBus.cpp:57-105 | with a bound UART and something to send: clear, flush, transmit phase, capture, with every fact `Transferred` lists |
| RS485.RS485Bus.TransferStep | lib/RS485Modbus/src/RS485ModBus.cpp:57-105 | the same cycle as `TransferCycle`, with `Valid()` kept, so the history still holds only exchanges made |
| RS485.RS485Bus.MatchesAt | lib/RS485Modbus/src/RS485ModBus.cpp:133-139 | the inner loop answers whether the prefix matches the capture at index `i` |
| RS485.RS485Bus.CopyWindow | lib/RS485Modbus/src/RS485ModBus.cpp:158 | the output holds exactly the chosen window, and its remaining bytes are unchanged |
| RS485.RS485Bus.ExtractFixedFrameByPrefix | lib/RS485Modbus/src/RS485ModBus.cpp:119-165 | found exactly when `Frames.Extract` finds an index. The output then holds that window and the index is reported. The output is untouched on failure, and the capture never changes |
| RS485.RS485Bus.ExtractIfCaptured | lib/RS485Modbus/src/RS485ModBus.cpp:171-219 | with nothing captured: false and no index written. Otherwise the extraction from the capture with the prefix as scanned, the index written always: the frame index, or 0 when there is none; the output holds the window on success and is untouched on failure |
| RS485.RS485Bus.FrameStartsAt | lib/RS485Modbus/src/RS485ModBus.cpp:132-141 | one index of the scan: true exactly when the prefix matches the capture there and the `len`-byte window from there passes the CRC check (`Frames.FrameAt`) |
| RS485.RS485Bus.TransferAndExtractFixedFrame | lib/RS485Modbus/src/RS485ModBus.cpp:167-220 | false with no index written when nothing was captured. Otherwise the result of extracting from the new capture with the prefix as it was on entry, with the index always written: the frame index, or 0 when no frame was found or a pointer was null. The transfer carries `TransferRaw`'s `Transferred` relation between the entry state and the state it returns, so `TransferredReply`, `TransferredOverflow` and `TransferredTimeout` apply to it, and the output is untouched on failure. The exchange it logs runs from the entry state to the returned one and is `Made` |
| ModbusRtu.Word | lib/Sensors/WindDirectionSensor/src/WindDirectionSensor.cpp:22 | joining a high and a low byte gives the word whose halves they are |
| ModbusRtu.WordOfHalves | lib/Sensors/TVOCSensor/src/TVOCSensor.cpp:11 | splitting a register address into its high and low bytes and joining them gives it back |
| ModbusRtu.Signed | lib/Sensors/TVOCSensor/src/TVOCSensor.cpp:31 | the two's-complement reading of a 16-bit word: negative exactly when bit 15 is set, and equal to the word modulo 65536 |
| ModbusRtu.BigEndianWord | lib/Sensors/SoilSensor7in1/src/SoilSensor7in1.cpp:66-80 | word `k` of a register payload is rebuilt from bytes `2k` and `2k+1`, high byte first |
| ModbusRtu.RequestBody | lib/Sensors/SoilSensor7in1/src/SoilSensor7in1.cpp:14-20 | a request body is 6 bytes: slave address, function code, then two words high byte first |
| ModbusRtu.RequestsAreValid | lib/Sensors/SoilSensor7in1/src/SoilSensor7in1.cpp:14-24 | every sealed request is a CRC-valid 8-byte frame, and its fields read back as the address, code and both words |
| ModbusRtu.AnswerIsFrame | lib/RS485Modbus/src/RS485ModBus.cpp:167-220 | a reply the transaction accepts comes from a non-empty capture, is a CRC-valid frame of the expected length that fits the reply buffer, begins with the expected prefix and is its own first bytes sealed |
| ModbusRtu.AnswerAfterNoise | lib/RS485Modbus/src/RS485ModBus.cpp:119-165 | a valid reply after bytes where no frame starts is the one accepted |
| ModbusRtu.ReadPayloadSound | lib/Sensors/SoilSensor7in1/src/SoilSensor7in1.cpp:26-49 | an accepted function 0x03 payload comes from a reply that is exactly the slave's normal response carrying it |
| ModbusRtu.ReadPayloadComplete | lib/Sensors/SoilSensor7in1/src/SoilSensor7in1.cpp:26-49 | the slave's normal response after noise yields exactly its payload |
| ModbusRtu.RegisterValueSound | lib/Sensors/WindDirectionSensor/src/WindDirectionSensor.cpp:16-22 | an accepted one-register value is the word carried by a CRC-valid response {addr, 03, 02, hi, lo} |
| ModbusRtu.RegisterValueComplete | lib/Sensors/WindDirectionSensor/src/WindDirectionSensor.cpp:16-22 | the normal one-register response after noise yields its value |
| ModbusRtu.CleanRegisterValue | lib/Sensors/TVOCSensor/src/TVOCSensor.cpp:17-23 | the normal one-register response on its own yields its value |
| ModbusRtu.WriteEchoComplete | lib/Sensors/EvaporationSensor/src/EvaporationSensor.cpp:36-47 | function 0x06 echoes its request. That echo, after noise, is accepted for any echo prefix length from 1 to 6 |
| ModbusRtu.ShortEchoIgnoresPayload | lib/Sensors/WindDirectionSensor/src/WindDirectionSensor.cpp:38-42 | with the 2-byte prefix {addr, 06}, any CRC-valid 8-byte frame is taken as the address-change echo, whatever register and value it names |
| ModbusRtu.AddressRequestBytes | lib/Sensors/WindDirectionSensor/src/WindDirectionSensor.cpp:33 | the address-change request is {addr, 06, 01, 00, 00, newAddress} |
| ModbusRtu.BuildRequest | lib/Sensors/WindDirectionSensor/src/WindDirectionSensor.cpp:11-14 | the 8-byte request buffer is the body followed by its CRC, low byte first |
| ModbusRtu.Transact | lib/RS485Modbus/src/RS485ModBus.cpp:167-220 | builds the sealed request, the prefix and a reply buffer of `rxSize` bytes. One exchange on the bus records the sealed request, the capture, the given overall timeout and the 25 ms inter-byte timeout; the reply is the window extraction accepts from the capture. The record runs from `old(bus.State())` to `bus.State()`, and `Valid()` keeps it `Made`: a `Transferred` cycle of the sealed request |
| ModbusRtu.TransactWith | lib/RS485Modbus/src/RS485ModBus.cpp:167-220 | with the buffers built: one exchange recording the sealed request, the capture and both timeouts, and the reply `Answer` takes from the capture. The record runs from `old(bus.State())` to `bus.State()`, and `Valid()` keeps it `Made`: a `Transferred` cycle of the sealed request |
| ModbusRtu.AnswerOfScan | lib/RS485Modbus/src/RS485ModBus.cpp:171-219 | no reply when nothing was captured; otherwise the reply is the window at the index the prefix scan reports, or none when it reports no frame, which is what `Answer` gives |
| ModbusRtu.ReadRegister | lib/Sensors/WindDirectionSensor/src/WindDirectionSensor.cpp:10-22 | sends {addr, 03, reg, 00 01} with the 250 ms and 25 ms timeouts. Returns the register value from a 7-byte reply with prefix {addr, 03, 02}, or None. The record runs from `old(bus.State())` to `bus.State()`, and `Valid()` keeps it `Made`: a `Transferred` cycle of the sealed request |
| ModbusRtu.ReadBlock | lib/Sensors/SoilSensor7in1/src/SoilSensor7in1.cpp:10-51 | sends a read of `count` registers with the 250 ms and 25 ms timeouts and returns the `byteCount` payload bytes of the accepted reply, or None. The record runs from `old(bus.State())` to `bus.State()`, and `Valid()` keeps it `Made`: a `Transferred` cycle of the sealed request |
| ModbusRtu.WriteRegister | lib/Sensors/EvaporationSensor/src/EvaporationSensor.cpp:36-47 | sends a function 0x06 request with the 500 ms and 25 ms timeouts, and succeeds exactly when an 8-byte echo beginning with the first request bytes is extracted. The record runs from `old(bus.State())` to `bus.State()`, and `Valid()` keeps it `Made`: a `Transferred` cycle of the sealed request |
| ModbusRtu.WriteAddress | lib/Sensors/WindDirectionSensor/src/WindDirectionSensor.cpp:32-46 | writes the new address to register 0x0100, and succeeds exactly when the 2-byte-prefix echo is extracted. The record runs from `old(bus.State())` to `bus.State()`, and `Valid()` keeps it `Made`: a `Transferred` cycle of the sealed request |
| WindDirection.ReadingOfResponse | lib/Sensors/WindDirectionSensor/src/WindDirectionSensor.cpp:22-28 | the slave's response carrying `v` is accepted exactly when `v <= 360`, and is then reported as `v` degrees |
| WindDirection.ReadingSound | lib/Sensors/WindDirectionSensor/src/WindDirectionSensor.cpp:16-28 | an accepted direction is at most 360 and is the value of a CRC-valid response of that slave |
| WindDirection.WindDirectionSensor.constructor | lib/Sensors/WindDirectionSensor/src/WindDirectionSensor.cpp:3-4 | binds the bus and the slave address |
| WindDirection.WindDirectionSensor.SetAddress | lib/Sensors/WindDirectionSensor/src/WindDirectionSensor.cpp:6 | the slave address becomes the given one |
| WindDirection.WindDirectionSensor.ReadAll | lib/Sensors/WindDirectionSensor/src/WindDirectionSensor.cpp:9-30 | one read of register 0x0000 with the 250 ms overall and 25 ms inter-byte timeouts. The result is true exactly when `Reading` accepts the capture; `out` is replaced by it then and left as it was otherwise. The record runs from the entry bus state to the exit one, and `Valid()` keeps it `Made` |
| WindDirection.WindDirectionSensor.ChangeAddress | lib/Sensors/WindDirectionSensor/src/WindDirectionSensor.cpp:32-46 | one write to 0x0100 with the 500 ms and 25 ms timeouts. The address changes, to the new one, exactly when the echo is extracted. The record runs from the entry bus state to the exit one, and `Valid()` keeps it `Made` |
| WindSpeed.ReadingOfResponse | lib/Sensors/WindSpeedSensor/src/WindSpeedSensor.cpp:22-28 | the response carrying `v` is accepted exactly when `v <= 300`, and is then reported as `v / 10` m/s |
| WindSpeed.ReadingSound | lib/Sensors/WindSpeedSensor/src/WindSpeedSensor.cpp:16-28 | an accepted speed lies between 0 and 30 m/s and is a tenth of a CRC-valid response's value |
| WindSpeed.WindSpeedSensor.constructor | lib/Sensors/WindSpeedSensor/src/WindSpeedSensor.cpp:3-4 | binds the bus and the slave address |
| WindSpeed.WindSpeedSensor.SetAddress | lib/Sensors/WindSpeedSensor/src/WindSpeedSensor.cpp:6 | the slave address becomes the given one |
| WindSpeed.WindSpeedSensor.ReadAll | lib/Sensors/WindSpeedSensor/src/WindSpeedSensor.cpp:9-30 | one read of register 0x0016 with the 250 ms and 25 ms timeouts. The result is true exactly when `Reading` accepts the capture, and `out` changes only then. The record runs from the entry bus state to the exit one, and `Valid()` keeps it `Made` |
| WindSpeed.WindSpeedSensor.ChangeAddress | lib/Sensors/WindSpeedSensor/src/WindSpeedSensor.cpp:32-46 | one write of the new address with the 500 ms and 25 ms timeouts. The address changes exactly when the echo is extracted. The record runs from the entry bus state to the exit one, and `Valid()` keeps it `Made` |
| Par.ReadingOfResponse | lib/Sensors/PARSensor/src/PARSensor.cpp:22-28 | the response carrying `v` is accepted exactly when `v <= 2000` and is then reported as `v` W/m2 |
| Par.ReadingSound | lib/Sensors/PARSensor/src/PARSensor.cpp:16-28 | an accepted PAR value is at most 2000 and is the value of a CRC-valid response |
| Par.PARSensor.constructor | lib/Sensors/PARSensor/src/PARSensor.cpp:3-4 | binds the bus and the slave address |
| Par.PARSensor.SetAddress | lib/Sensors/PARSensor/src/PARSensor.cpp:6 | the slave address becomes the given one |
| Par.PARSensor.ReadAll | lib/Sensors/PARSensor/src/PARSensor.cpp:9-30 | one read of register 0x0006 with the 250 ms and 25 ms timeouts. The result is true exactly when `Reading` accepts the capture, and `out` changes only then. The record runs from the entry bus state to the exit one, and `Valid()` keeps it `Made` |
| Par.PARSensor.ChangeAddress | lib/Sensors/PARSensor/src/PARSensor.cpp:32-46 | one write of the new address with the 500 ms and 25 ms timeouts. The address changes exactly when the echo is extracted. The record runs from the entry bus state to the exit one, and `Valid()` keeps it `Made` |
| Evaporation.ReadingOfResponse | lib/Sensors/EvaporationSensor/src/EvaporationSensor.cpp:22-32 | the response carrying `v` is accepted exactly when it is not 0xFFFF and at most 200 |
| Evaporation.ReadingSound | lib/Sensors/EvaporationSensor/src/EvaporationSensor.cpp:16-32 | an accepted value passed both checks and is the value of a CRC-valid response |
| Evaporation.AcceptedRange | lib/Sensors/EvaporationSensor/src/EvaporationSensor.cpp:24-30 | the fault check is subsumed by the bound: the accepted values are exactly 0 to 200 |
| Evaporation.TareRequestBytes | lib/Sensors/EvaporationSensor/src/EvaporationSensor.cpp:38-43 | the tare request is {addr, 06, 01, 02, 00, 01} with echo prefix {addr, 06, 01, 02} |
| Evaporation.EvaporationSensor.constructor | lib/Sensors/EvaporationSensor/src/EvaporationSensor.cpp:3-4 | binds the bus and the slave address |
| Evaporation.EvaporationSensor.SetAddress | lib/Sensors/EvaporationSensor/src/EvaporationSensor.cpp:6 | the slave address becomes the given one |
| Evaporation.EvaporationSensor.ReadAll | lib/Sensors/EvaporationSensor/src/EvaporationSensor.cpp:9-34 | one read of register 0x0006 with the 250 ms and 25 ms timeouts. The result is true exactly when `Reading` accepts the capture, and `out` changes only then. The record runs from the entry bus state to the exit one, and `Valid()` keeps it `Made` |
| Evaporation.EvaporationSensor.Tare | lib/Sensors/EvaporationSensor/src/EvaporationSensor.cpp:36-47 | writes 0x0001 to 0x0102 with the 500 ms and 25 ms timeouts, and succeeds exactly when an echo beginning with the first four request bytes is extracted. The record runs from the entry bus state to the exit one, and `Valid()` keeps it `Made` |
| Evaporation.EvaporationSensor.ChangeAddress | lib/Sensors/EvaporationSensor/src/EvaporationSensor.cpp:49-63 | one write of the new address with the 500 ms and 25 ms timeouts. The address changes exactly when the echo is extracted. The record runs from the entry bus state to the exit one, and `Valid()` keeps it `Made` |
| Rain.ReadingOfResponse | lib/Sensors/RainSensor/src/RainSensor.cpp:22-27 | the response carrying `v` is accepted exactly when `v` is neither 0xFFFF nor 0x7FFF, and is then reported as `v / 10` mm |
| Rain.ReadingSound | lib/Sensors/RainSensor/src/RainSensor.cpp:16-27 | an accepted rainfall is not a fault pattern and is a tenth of a CRC-valid response's value |
| Rain.ClearRequestBytes | lib/Sensors/RainSensor/src/RainSensor.cpp:31-42 | the clear request is {addr, 06, 01, 05, 00, 00} with echo prefix {addr, 06, 01, 05} |
| Rain.RainSensor.constructor | lib/Sensors/RainSensor/src/RainSensor.cpp:3-4 | binds the bus and the slave address |
| Rain.RainSensor.SetAddress | lib/Sensors/RainSensor/src/RainSensor.cpp:6 | the slave address becomes the given one |
| Rain.RainSensor.ReadAll | lib/Sensors/RainSensor/src/RainSensor.cpp:9-29 | one read of register 0x0003 with the 250 ms and 25 ms timeouts. The result is true exactly when `Reading` accepts the capture, and `out` changes only then. The record runs from the entry bus state to the exit one, and `Valid()` keeps it `Made` |
| Rain.RainSensor.ClearRainfall | lib/Sensors/RainSensor/src/RainSensor.cpp:31-42 | writes 0x0000 to 0x0105 with the 500 ms and 25 ms timeouts, and succeeds exactly when the 4-byte-prefix echo is extracted. The record runs from the entry bus state to the exit one, and `Valid()` keeps it `Made` |
| Illuminance.Lux | lib/Sensors/IlluminanceSensor/src/IlluminanceSensor.cpp:24 | the 32-bit value keeps the high word in its top half and the low word in its bottom half, with nothing lost |
| Illuminance.LuxBound | lib/Sensors/IlluminanceSensor/src/IlluminanceSensor.cpp:28-29 | the 300000 lux bound holds exactly when the high word is below 4, or is 4 with a low word of at most 0x93E0 |
| Illuminance.ReadingOfResponse | lib/Sensors/IlluminanceSensor/src/IlluminanceSensor.cpp:22-31 | the two-register response carrying `hi, lo` is accepted exactly when the combined value is at most 300000, and is reported as that value |
| Illuminance.ReadingSound | lib/Sensors/IlluminanceSensor/src/IlluminanceSensor.cpp:16-31 | an accepted value is at most 300000 and combines the two words of a CRC-valid 9-byte response |
| Illuminance.IlluminanceSensor.constructor | lib/Sensors/IlluminanceSensor/src/IlluminanceSensor.cpp:3-4 | binds the bus and the slave address |
| Illuminance.IlluminanceSensor.SetAddress | lib/Sensors/IlluminanceSensor/src/IlluminanceSensor.cpp:6 | the slave address becomes the given one |
| Illuminance.IlluminanceSensor.ReadAll | lib/Sensors/IlluminanceSensor/src/IlluminanceSensor.cpp:9-33 | one read of two registers from 0x0007 with the 250 ms and 25 ms timeouts. The result is true exactly when `Reading` accepts the capture, and `out` changes only then. The record runs from the entry bus state to the exit one, and `Valid()` keeps it `Made` |
| Illuminance.IlluminanceSensor.ChangeAddress | lib/Sensors/IlluminanceSensor/src/IlluminanceSensor.cpp:35-49 | one write of the new address with the 500 ms and 25 ms timeouts. The address changes exactly when the echo is extracted. The record runs from the entry bus state to the exit one, and `Valid()` keeps it `Made` |
| Pm25Pm10.PM25PM10Sensor.constructor | lib/Sensors/PM25PM10Sensor/src/PM25PM10Sensor.cpp:3-4 | binds the bus and the slave address |
| Pm25Pm10.PM25PM10Sensor.SetAddress | lib/Sensors/PM25PM10Sensor/src/PM25PM10Sensor.cpp:6 | the slave address becomes the given one |
| Pm25Pm10.PM25PM10Sensor.ReadAll | lib/Sensors/PM25PM10Sensor/src/PM25PM10Sensor.cpp:9-49 | reads 0x0004 and, only when that value was extracted and is at most 300, reads 0x0009; both reads use the 250 ms overall and 25 ms inter-byte timeouts. On success both values are stored. When the second read fails, PM2.5 is already overwritten and PM10 is kept. The exchanges are `Linked` from the entry bus state to the exit one, and `Valid()` keeps each of them `Made` |
| Pm25Pm10.PM25PM10Sensor.ChangeAddress | lib/Sensors/PM25PM10Sensor/src/PM25PM10Sensor.cpp:51-65 | one write of the new address with the 500 ms and 25 ms timeouts. The address changes exactly when the echo is extracted. The record runs from the entry bus state to the exit one, and `Valid()` keeps it `Made` |
| Tvoc.Raws | lib/Sensors/TVOCSensor/src/TVOCSensor.cpp:40-51 | when every read extracted a value, the values number as many as the reads |
| Tvoc.ReadingBounds | lib/Sensors/TVOCSensor/src/TVOCSensor.cpp:53-76 | the bounds hold exactly when: humidity is at most 1000 tenths, the signed temperature is -400 to 800 tenths, CO2 is 400 to 5000, TVOC at most 1000, and PM2.5 and PM10 at most 300. The fields are then the raw values, humidity and temperature divided by ten |
| Tvoc.RawsSnoc | lib/Sensors/TVOCSensor/src/TVOCSensor.cpp:40-51 | one more read extends the values when it extracts one and stops them otherwise |
| Tvoc.RawsOfResponses | lib/Sensors/TVOCSensor/src/TVOCSensor.cpp:40-51 | normal responses carrying `vs` give exactly the values `vs` |
| Tvoc.RawsSound | lib/Sensors/TVOCSensor/src/TVOCSensor.cpp:40-51 | each value is the register value of its own read's capture |
| Tvoc.Extended | lib/Sensors/TVOCSensor/src/TVOCSensor.cpp:40-51 | after one more request of the next register, the request sequence still matches and the values extend by that read's value |
| Tvoc.RequestsSnoc | lib/Sensors/TVOCSensor/src/TVOCSensor.cpp:40-51 | appending the request for the next register keeps the request sequence in register order |
| Tvoc.TVOCSensor.constructor | lib/Sensors/TVOCSensor/src/TVOCSensor.cpp:3-4 | binds the bus and the slave address |
| Tvoc.TVOCSensor.SetAddress | lib/Sensors/TVOCSensor/src/TVOCSensor.cpp:6 | the slave address becomes the given one |
| Tvoc.TVOCSensor.ReadU16 | lib/Sensors/TVOCSensor/src/TVOCSensor.cpp:9-25 | one read of `reg` with the 250 ms and 25 ms timeouts. The result is true exactly when a register value is extracted, and `val` changes only then. The record runs from the entry bus state to the exit one, and `Valid()` keeps it `Made` |
| Tvoc.TVOCSensor.ReadS16 | lib/Sensors/TVOCSensor/src/TVOCSensor.cpp:27-33 | as `ReadU16`, storing the two's-complement reading of the value. The record runs from the entry bus state to the exit one, and `Valid()` keeps it `Made` |
| Tvoc.TVOCSensor.ReadRaws | lib/Sensors/TVOCSensor/src/TVOCSensor.cpp:36-51 | reads 0x0000, 0x0001, 0x0004, 0x0005, 0x0006 and 0x0009 in order, each with the 250 ms and 25 ms timeouts, stopping at the first failure. It succeeds exactly when all six were extracted, and returns them. The exchanges are `Linked` from the entry bus state to the exit one, and `Valid()` keeps each of them `Made` |
| Tvoc.TVOCSensor.ReadAll | lib/Sensors/TVOCSensor/src/TVOCSensor.cpp:35-77 | the requests are the register reads in order, each with the 250 ms and 25 ms timeouts, up to the first failure. The result is true exactly when all six succeed and `Reading` accepts them; `out` is then replaced as a whole, and left as it was otherwise. The exchanges are `Linked` from the entry bus state to the exit one, and `Valid()` keeps each of them `Made` |
| Tvoc.TVOCSensor.ChangeAddress | lib/Sensors/TVOCSensor/src/TVOCSensor.cpp:79-93 | one write of the new address with the 500 ms and 25 ms timeouts. The address changes exactly when the echo is extracted. The record runs from the entry bus state to the exit one, and `Valid()` keeps it `Made` |
| Soil7in1.ByteCountRange | lib/Sensors/SoilSensor7in1/src/SoilSensor7in1.cpp:27-36 | below 128 registers the count is exact and the length guard rejects exactly the counts above 125. Counts 128 apart give the same byte count |
| Soil7in1.ReadAllCounts | lib/Sensors/SoilSensor7in1/src/SoilSensor7in1.cpp:58-76 | the three reads of `readAll` expect 2, 8 and 6 payload bytes, and none is rejected by the guard |
| Soil7in1.Payload | lib/Sensors/SoilSensor7in1/src/SoilSensor7in1.cpp:27-49 | an accepted payload has exactly the expected byte count |
| Soil7in1.PayloadSound | lib/Sensors/SoilSensor7in1/src/SoilSensor7in1.cpp:27-49 | an accepted payload comes from a reply that is the slave's normal response carrying it |
| Soil7in1.PayloadComplete | lib/Sensors/SoilSensor7in1/src/SoilSensor7in1.cpp:27-49 | the slave's normal response after noise yields exactly its payload, for any count the guard admits |
| Soil7in1.CleanPayload | lib/Sensors/SoilSensor7in1/src/SoilSensor7in1.cpp:27-49 | the normal response on its own yields its payload |
| Soil7in1.ClimateOfRegisters | lib/Sensors/SoilSensor7in1/src/SoilSensor7in1.cpp:66-72 | from four words: humidity is word 0 / 10, temperature is signed word 1 / 10, conductivity is word 3, and word 2 is unused |
| Soil7in1.PhAndNutrientsOfRegisters | lib/Sensors/SoilSensor7in1/src/SoilSensor7in1.cpp:60-80 | pH is the word / 100, and nitrogen, phosphorus and potassium are the three words |
| Soil7in1.OutcomeOfRegisters | lib/Sensors/SoilSensor7in1/src/SoilSensor7in1.cpp:53-89 | three normal responses give a completed `readAll`: every field is set from its register, and the result is true exactly when temperature and humidity are in range |
| Soil7in1.CopyFrom | lib/Sensors/SoilSensor7in1/src/SoilSensor7in1.cpp:49 | the first `n` bytes of the destination become the source's, and the rest do not change |
| Soil7in1.SoilSensor7in1.constructor | lib/Sensors/SoilSensor7in1/src/SoilSensor7in1.cpp:3-4 | binds the bus and the slave address |
| Soil7in1.SoilSensor7in1.SetAddress | lib/Sensors/SoilSensor7in1/src/SoilSensor7in1.cpp:6 | the slave address becomes the given one |
| Soil7in1.SoilSensor7in1.ReadHoldingRegisters | lib/Sensors/SoilSensor7in1/src/SoilSensor7in1.cpp:10-51 | a count whose frame would exceed 255 bytes fails with no exchange. Otherwise one exchange with the 250 ms and 25 ms timeouts; on success the output holds the payload and its remaining bytes are unchanged, and on failure nothing is written. The record runs from the entry bus state to the exit one, and `Valid()` keeps it `Made` |
| Soil7in1.SoilSensor7in1.ReadPh | lib/Sensors/SoilSensor7in1/src/SoilSensor7in1.cpp:56-60 | reads one register at 0x0006 with the 250 ms and 25 ms timeouts and sets pH only on success. The record runs from the entry bus state to the exit one, and `Valid()` keeps it `Made` |
| Soil7in1.SoilSensor7in1.ReadClimate | lib/Sensors/SoilSensor7in1/src/SoilSensor7in1.cpp:62-72 | reads four registers at 0x0012 with the 250 ms and 25 ms timeouts and sets humidity, temperature and conductivity only on success. The record runs from the entry bus state to the exit one, and `Valid()` keeps it `Made` |
| Soil7in1.SoilSensor7in1.ReadNutrients | lib/Sensors/SoilSensor7in1/src/SoilSensor7in1.cpp:74-80 | reads three registers at 0x001E with the 250 ms and 25 ms timeouts and sets N, P and K only on success. The record runs from the entry bus state to the exit one, and `Valid()` keeps it `Made` |
| Soil7in1.SoilSensor7in1.ReadAll | lib/Sensors/SoilSensor7in1/src/SoilSensor7in1.cpp:53-89 | up to three reads, each with the 250 ms and 25 ms timeouts, stopping at the first failure. The fields of each successful read are already written, and the result is true exactly when all three succeed and temperature and humidity are in range. The written fields are kept even when the range check fails. The exchanges are `Linked` from the entry bus state to the exit one, and `Valid()` keeps each of them `Made` |

## Left out

- `begin` configures the UART: baud rate, frame format, pins, and the larger receive buffer on ESP32. The model only binds the UART, since that configuration is a call into the Arduino core.
- Logging: `setLogger`, the `log*` helpers and every `PrintController` call, including the trace-level CRC report in extraction. They only print.
- `millis()` wrap-around: time is an unbounded natural number. The `millis() - tStart` differences are therefore never taken modulo 2^32.
- `read()` returning -1 while `available()` reported bytes cannot happen in the UART model: an available byte is always readable.
- Floating-point values (pH, humidity, temperature, rainfall, wind speed) are exact rationals `raw / 10` or `raw / 100`. Float rounding is not modelled, and the range comparisons are made on those exact values.
- `address()` getters are left out: they only return the `_addr` field, which the model exposes directly.
- The flavours of drivers outside these nine (the float-decided ones, `SoilTR`, the examples and `src/main.cpp`) are not part of this model.
- `RS485.RS485Bus.TransferRaw`: records the request as the bytes handed to the UART, and records no reads in the event trace. What was read is stated through the receive queue and the capture instead.
- `ModbusRtu.Transact`: the drivers build their request, prefix and reply buffers inline. The model shares this one helper and proves each driver's request bytes (`AddressRequestBytes`, `TareRequestBytes`, `ClearRequestBytes`).
- `Tvoc.TVOCSensor.ReadStep`, `Tvoc.TVOCSensor.ReadStepSigned`, `Soil7in1.SoilSensor7in1.ReadLast` and `Soil7in1.SoilSensor7in1.ReadFromClimate` are proof structure within `readAll`, not functions of the source.
- `Soil7in1.ByteCount`: the 8-bit truncation of `numRegs * 2` is modelled and stated in `ByteCountRange`. It does no harm here because `readHoldingRegisters` is private and only called with 1, 4 and 3 registers.
- The ghost `exchanges` history, with its bus states, is a modelling device. It records each transfer so that driver contracts can name the requests sent, the bytes heard, the timeouts used and what the bus did during each exchange.
- `RS485.RS485Bus.TransferStep` and `RS485.RS485Bus.ExtractIfCaptured` are proof structure within `transferRaw` and `transferAndExtractFixedFrame`, not functions of the source.
- `RS485.RS485Bus.FlushInput`: its drain loop ends because the arrival oracle holds finitely many batches, so the line always goes quiet. The source loop never ends if bytes keep arriving at one per millisecond or faster; that case is not modelled.
- `Capture.CaptureWholeReply`, `Capture.CaptureOverflow`, `Capture.CaptureTimesOut`, `RS485.TransferredReply`, `RS485.TransferredOverflow` and `RS485.TransferredTimeout` are stated for a clock without drift: only the 1 ms waits move it. With drift the capture is still exactly `Capture.CaptureRun`, and `Capture.CaptureEnds` still holds, but no closed form of the result is given.
- The clock moves only by the drift consumed per `millis()` reading and by `delay`. The time the guard delays in microseconds and the UART flush take is not added to it.
