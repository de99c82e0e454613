/**
 * The 7-in-1 soil sensor: pH at holding register 0x0006 (/100), moisture,
 * temperature and conductivity at 0x0012..0x0015 (0x0014 unused), and
 * nitrogen, phosphorus and potassium at 0x001E..0x0020, in three reads.
 * This driver builds its own function 0x03 requests and copies the payload
 * out of the extracted frame.
 */
module Soil7in1 {

  import opened Types
  import opened RS485
  import opened ModbusRtu
  import Frames

  const PH_REGISTER: bv16 := 0x0006
  const CLIMATE_REGISTER: bv16 := 0x0012
  const NPK_REGISTER: bv16 := 0x001E
  /** Capacity of the driver's receive frame, `rxFrame[256]`. */
  const RX_FRAME_SIZE: nat := 256

  datatype Data = Data(
    temperatureC: real,
    humidityPct: real,
    conductivity: bv16,    // uS/cm
    pH: real,
    nitrogen: bv16,        // mg/kg
    phosphorus: bv16,      // mg/kg
    potassium: bv16)       // mg/kg

  /** The expected payload length: twice the register count, truncated to 8 bits. */
  function ByteCount(numRegs: bv16): byte {
    Lo(numRegs << 1)
  }

  /** The guard `expectedLen > 255` that refuses a read before any transfer. */
  predicate TooLong(numRegs: bv16) {
    5 + ByteCount(numRegs) as int > 255
  }

  /** What `readHoldingRegisters` copies out for a capture, or None when it returns false after a transfer. */
  function Payload(captured: seq<byte>, addr: byte, numRegs: bv16): (p: Option<seq<byte>>)
    ensures p.Some? ==> |p.value| == ByteCount(numRegs) as int
  {
    ReadPayload(captured, addr, ByteCount(numRegs), RX_FRAME_SIZE)
  }

  /** Step 1 of `readAll`: pH from the 2-byte payload. */
  function WithPh(out: Data, p: seq<byte>): Data
    requires |p| == 2
  {
    out.(pH := Word(p[0], p[1]) as int as real / 100.0)
  }

  /** Step 2: moisture, temperature and conductivity from the 8-byte payload; bytes 4 and 5 are skipped. */
  function WithClimate(out: Data, p: seq<byte>): Data
    requires |p| == 8
  {
    out.(humidityPct := Word(p[0], p[1]) as int as real / 10.0,
         temperatureC := Signed(Word(p[2], p[3])) as real / 10.0,
         conductivity := Word(p[6], p[7]))
  }

  /** Step 3: N, P and K from the 6-byte payload. */
  function WithNutrients(out: Data, p: seq<byte>): Data
    requires |p| == 6
  {
    out.(nitrogen := Word(p[0], p[1]), phosphorus := Word(p[2], p[3]), potassium := Word(p[4], p[5]))
  }

  /** The final range checks: -40 to 80 degC and 0 to 100 %. */
  predicate InRange(d: Data) {
    !(d.temperatureC < -40.0 || d.temperatureC > 80.0) && !(d.humidityPct < 0.0 || d.humidityPct > 100.0)
  }

  /** The reads from block 2 on stop at the first that fails: one exchange, or two when block 2 succeeds. */
  predicate ClimateStopped(trail: seq<Exchange>, addr: byte) {
    1 <= |trail| && |trail| == if Payload(trail[0].captured, addr, 4).Some? then 2 else 1
  }

  /** The reads of `readAll` stop at the first that fails: the shapes its trail can have. */
  predicate Stopped(trail: seq<Exchange>, addr: byte) {
    1 <= |trail| &&
    if Payload(trail[0].captured, addr, 1).Some? then ClimateStopped(trail[1..], addr) else |trail| == 1
  }

  /** Block 3 and the range checks: the result for the N/P/K capture. */
  function LastOutcome(out: Data, captured: seq<byte>, addr: byte): (bool, Data) {
    var p := Payload(captured, addr, 3);
    if p.None? then (false, out)
    else
      var o := WithNutrients(out, p.value);
      (InRange(o), o)
  }

  /** Blocks 2 and 3 and the range checks, for the captures of their reads. */
  function ClimateOutcome(out: Data, trail: seq<Exchange>, addr: byte): (bool, Data)
    requires ClimateStopped(trail, addr)
  {
    var p := Payload(trail[0].captured, addr, 4);
    if p.None? then (false, out) else LastOutcome(WithClimate(out, p.value), trail[1].captured, addr)
  }

  /**
   * What `readAll` returns and leaves in `out` for the captures of its reads:
   * every step that succeeded has written its fields, and true only when all
   * three reads succeeded and the result is in range.
   */
  function Outcome(out: Data, trail: seq<Exchange>, addr: byte): (bool, Data)
    requires Stopped(trail, addr)
  {
    var p := Payload(trail[0].captured, addr, 1);
    if p.None? then (false, out) else ClimateOutcome(WithPh(out, p.value), trail[1..], addr)
  }

  /**
   * For up to 127 registers the byte count is exact and the guard passes
   * exactly up to 125 registers; from 128 on the count wraps around.
   */
  lemma ByteCountRange(numRegs: bv16)
    ensures numRegs < 128 ==> ByteCount(numRegs) as bv16 == numRegs * 2
    ensures numRegs < 128 ==> (TooLong(numRegs) <==> numRegs > 125)
    ensures ByteCount(numRegs + 128) == ByteCount(numRegs)
  {
    assert TooLong(numRegs) <==> ByteCount(numRegs) > 250;
  }

  /** The counts of the three reads `readAll` makes. */
  lemma ReadAllCounts()
    ensures ByteCount(1) == 2 && ByteCount(4) == 8 && ByteCount(3) == 6
    ensures !TooLong(1) && !TooLong(4) && !TooLong(3)
  {
  }

  /**
   * The bytes the sensor puts in its response for registers `ws` decode as:
   * moisture and temperature from the first two words, conductivity from the
   * fourth, whatever the third (register 0x0014) holds.
   */
  lemma ClimateOfRegisters(out: Data, ws: seq<bv16>)
    requires |ws| == 4
    ensures |BigEndian(ws)| == 8
    ensures WithClimate(out, BigEndian(ws)) ==
            out.(humidityPct := ws[0] as int as real / 10.0,
                 temperatureC := Signed(ws[1]) as real / 10.0,
                 conductivity := ws[3])
  {
    BigEndianWord(ws, 0);
    BigEndianWord(ws, 1);
    BigEndianWord(ws, 3);
  }

  /** The pH and nutrient words decode in register order. */
  lemma PhAndNutrientsOfRegisters(out: Data, ph: bv16, npk: seq<bv16>)
    requires |npk| == 3
    ensures |BigEndian([ph])| == 2 && |BigEndian(npk)| == 6
    ensures WithPh(out, BigEndian([ph])) == out.(pH := ph as int as real / 100.0)
    ensures WithNutrients(out, BigEndian(npk)) ==
            out.(nitrogen := npk[0], phosphorus := npk[1], potassium := npk[2])
  {
    BigEndianWord([ph], 0);
    BigEndianWord(npk, 0);
    BigEndianWord(npk, 1);
    BigEndianWord(npk, 2);
  }

  /** A payload is what follows the header of a valid response from slave `addr`. */
  lemma PayloadSound(captured: seq<byte>, addr: byte, numRegs: bv16)
    requires Payload(captured, addr, numRegs).Some?
    ensures ReadReply(captured, addr, ByteCount(numRegs), RX_FRAME_SIZE) ==
            Some(ReadResponse(addr, ByteCount(numRegs), Payload(captured, addr, numRegs).value))
  {
    ReadPayloadSound(captured, addr, ByteCount(numRegs), RX_FRAME_SIZE);
  }

  /** A response that passes the guard, after bytes in which no reply starts, yields its payload. */
  lemma PayloadComplete(noise: seq<byte>, addr: byte, numRegs: bv16, payload: seq<byte>)
    requires !TooLong(numRegs) && |payload| == ByteCount(numRegs) as int
    requires Frames.NoFrameBefore(noise + ReadResponse(addr, ByteCount(numRegs), payload),
                                  [addr, READ_HOLDING_REGISTERS, ByteCount(numRegs)], 5 + |payload|, |noise|)
    ensures Payload(noise + ReadResponse(addr, ByteCount(numRegs), payload), addr, numRegs) == Some(payload)
  {
    ReadPayloadComplete(noise, addr, ByteCount(numRegs), payload, RX_FRAME_SIZE);
  }

  /**
   * Three clean responses carrying pH, the four climate registers and N/P/K
   * lead to a full trail and to every field written from its register, true
   * exactly when temperature and moisture are in range.
   */
  lemma OutcomeOfRegisters(out: Data, trail: seq<Exchange>, addr: byte, ph: bv16, climate: seq<bv16>, npk: seq<bv16>)
    requires |trail| == 3 && |climate| == 4 && |npk| == 3
    requires trail[0].captured == ReadResponse(addr, 2, BigEndian([ph]))
    requires trail[1].captured == ReadResponse(addr, 8, BigEndian(climate))
    requires trail[2].captured == ReadResponse(addr, 6, BigEndian(npk))
    ensures Stopped(trail, addr)
    ensures var d := out.(pH := ph as int as real / 100.0,
                          humidityPct := climate[0] as int as real / 10.0,
                          temperatureC := Signed(climate[1]) as real / 10.0,
                          conductivity := climate[3],
                          nitrogen := npk[0], phosphorus := npk[1], potassium := npk[2]);
            Outcome(out, trail, addr) == (InRange(d), d)
  {
    ReadAllCounts();
    var r0, r1, r2 := BigEndian([ph]), BigEndian(climate), BigEndian(npk);
    PhAndNutrientsOfRegisters(out, ph, npk);
    CleanPayload(addr, 1, r0);
    CleanPayload(addr, 4, r1);
    CleanPayload(addr, 3, r2);
    var o1 := WithPh(out, r0);
    ClimateOfRegisters(o1, climate);
    var o2 := WithClimate(o1, r1);
    PhAndNutrientsOfRegisters(o2, ph, npk);
    var o3 := WithNutrients(o2, r2);
    assert LastOutcome(o2, trail[2].captured, addr) == (InRange(o3), o3);
    assert trail[1..][0] == trail[1] && trail[1..][1] == trail[2];
    assert ClimateOutcome(o1, trail[1..], addr) == LastOutcome(o2, trail[2].captured, addr);
    assert Outcome(out, trail, addr) == ClimateOutcome(o1, trail[1..], addr);
    assert o3 == out.(pH := ph as int as real / 100.0,
                      humidityPct := climate[0] as int as real / 10.0,
                      temperatureC := Signed(climate[1]) as real / 10.0,
                      conductivity := climate[3],
                      nitrogen := npk[0], phosphorus := npk[1], potassium := npk[2]);
  }

  /** A response with nothing before it yields its payload. */
  lemma CleanPayload(addr: byte, numRegs: bv16, payload: seq<byte>)
    requires !TooLong(numRegs) && |payload| == ByteCount(numRegs) as int
    ensures Payload(ReadResponse(addr, ByteCount(numRegs), payload), addr, numRegs) == Some(payload)
  {
    assert [] + ReadResponse(addr, ByteCount(numRegs), payload) == ReadResponse(addr, ByteCount(numRegs), payload);
    PayloadComplete([], addr, numRegs, payload);
  }

  /** Copies the first `n` bytes of `src` to the front of `dst`. */
  method CopyFrom(src: seq<byte>, n: nat, dst: array<byte>)
    requires n <= |src| && n <= dst.Length
    modifies dst
    ensures dst[..n] == src[..n]
    ensures dst[n..] == old(dst[n..])
  {
    for j := 0 to n
      invariant dst[..j] == src[..j]
      invariant dst[j..] == old(dst[j..])
    {
      dst[j] := src[j];
      assert dst[..j + 1] == src[..j + 1];
    }
  }

  class SoilSensor7in1 {
    const bus: RS485Bus
    var addr: byte

    ghost predicate Valid()
      reads this, bus
    {
      bus.Valid()
    }

    constructor (bus: RS485Bus, address: byte)
      ensures this.bus == bus && addr == address
    {
      this.bus := bus;
      addr := address;
    }

    method SetAddress(address: byte)
      modifies this`addr
      ensures addr == address
    {
      addr := address;
    }

    /**
     * `readHoldingRegisters`: refuses, before any transfer, a read whose
     * expected frame exceeds 255 bytes; otherwise one function 0x03
     * exchange, and on success the payload is copied to the front of
     * `outPayload`. Nothing else of `outPayload` is touched.
     */
    method ReadHoldingRegisters(startReg: bv16, numRegs: bv16, outPayload: array<byte>) returns (ok: bool)
      requires Valid() && outPayload != bus.rxBuf && outPayload.Length >= ByteCount(numRegs) as int
      modifies bus`rxLen, bus`exchanges, bus.rxBuf, bus.mcu, outPayload
      ensures Valid()
      ensures TooLong(numRegs) ==>
                !ok && bus.exchanges == old(bus.exchanges) && bus.State() == old(bus.State()) &&
                outPayload[..] == old(outPayload[..])
      ensures !TooLong(numRegs) ==>
                bus.exchanges == old(bus.exchanges) +
                                 [Exchange(Sent(bus.serialBound, ReadRequest(addr, startReg, numRegs)),
                                           bus.Captured(), READ_TIMEOUT_MS, INTER_BYTE_TIMEOUT_MS,
                                           old(bus.State()), bus.State())] &&
                ok == Payload(bus.Captured(), addr, numRegs).Some?
      ensures ok ==> outPayload[..ByteCount(numRegs)] == Payload(bus.Captured(), addr, numRegs).value
      ensures ok ==> outPayload[ByteCount(numRegs)..] == old(outPayload[ByteCount(numRegs)..])
      ensures !ok ==> outPayload[..] == old(outPayload[..])
    {
      var byteCount := ByteCount(numRegs);
      var expectedLen := 5 + byteCount as int;
      if expectedLen > 255 {
        return false;
      }
      var payload := ReadBlock(bus, addr, startReg, numRegs, byteCount, RX_FRAME_SIZE);
      if payload.None? {
        return false;
      }
      CopyFrom(payload.value, byteCount as int, outPayload);
      ok := true;
    }

    /** Block 1 of `readAll`: register 0x0006, pH = raw / 100. */
    method ReadPh(out: Data) returns (ok: bool, out': Data, ghost e: Exchange)
      requires Valid()
      modifies bus`rxLen, bus`exchanges, bus.rxBuf, bus.mcu
      ensures Valid() && e.captured == bus.Captured()
      ensures bus.exchanges == old(bus.exchanges) + [e]
      ensures e == Exchange(Sent(bus.serialBound, ReadRequest(addr, PH_REGISTER, 1)),
                    bus.Captured(), READ_TIMEOUT_MS, INTER_BYTE_TIMEOUT_MS, old(bus.State()), bus.State())
      ensures ok == Payload(e.captured, addr, 1).Some?
      ensures out' == if ok then WithPh(out, Payload(e.captured, addr, 1).value) else out
    {
      out' := out;
      ghost var s0 := bus.State();
      ReadAllCounts();
      var buf := new byte[2];
      ok := ReadHoldingRegisters(PH_REGISTER, 1, buf);
      e := Exchange(Sent(bus.serialBound, ReadRequest(addr, PH_REGISTER, 1)),
                    bus.Captured(), READ_TIMEOUT_MS, INTER_BYTE_TIMEOUT_MS, s0, bus.State());
      if !ok {
        return;
      }
      ghost var p := Payload(e.captured, addr, 1).value;
      assert buf[..2] == p && buf[0] == p[0] && buf[1] == p[1];
      out' := out'.(pH := Word(buf[0], buf[1]) as int as real / 100.0);
    }

    /** Block 2 of `readAll`: registers 0x0012..0x0015; the bytes of 0x0014 are skipped. */
    method ReadClimate(out: Data) returns (ok: bool, out': Data, ghost e: Exchange)
      requires Valid()
      modifies bus`rxLen, bus`exchanges, bus.rxBuf, bus.mcu
      ensures Valid() && e.captured == bus.Captured()
      ensures bus.exchanges == old(bus.exchanges) + [e]
      ensures e == Exchange(Sent(bus.serialBound, ReadRequest(addr, CLIMATE_REGISTER, 4)),
                    bus.Captured(), READ_TIMEOUT_MS, INTER_BYTE_TIMEOUT_MS, old(bus.State()), bus.State())
      ensures ok == Payload(e.captured, addr, 4).Some?
      ensures out' == if ok then WithClimate(out, Payload(e.captured, addr, 4).value) else out
    {
      out' := out;
      ghost var s0 := bus.State();
      ReadAllCounts();
      var buf := new byte[8];
      ok := ReadHoldingRegisters(CLIMATE_REGISTER, 4, buf);
      e := Exchange(Sent(bus.serialBound, ReadRequest(addr, CLIMATE_REGISTER, 4)),
                    bus.Captured(), READ_TIMEOUT_MS, INTER_BYTE_TIMEOUT_MS, s0, bus.State());
      if !ok {
        return;
      }
      ghost var p := Payload(e.captured, addr, 4).value;
      assert buf[..8] == p && buf[0] == p[0] && buf[1] == p[1] && buf[2] == p[2] &&
             buf[3] == p[3] && buf[6] == p[6] && buf[7] == p[7];
      out' := out'.(humidityPct := Word(buf[0], buf[1]) as int as real / 10.0);
      var tRaw := Signed(Word(buf[2], buf[3]));
      out' := out'.(temperatureC := tRaw as real / 10.0);
      out' := out'.(conductivity := Word(buf[6], buf[7]));
    }

    /** Block 3 of `readAll`: registers 0x001E..0x0020, N, P and K. */
    method ReadNutrients(out: Data) returns (ok: bool, out': Data, ghost e: Exchange)
      requires Valid()
      modifies bus`rxLen, bus`exchanges, bus.rxBuf, bus.mcu
      ensures Valid() && e.captured == bus.Captured()
      ensures bus.exchanges == old(bus.exchanges) + [e]
      ensures e == Exchange(Sent(bus.serialBound, ReadRequest(addr, NPK_REGISTER, 3)),
                    bus.Captured(), READ_TIMEOUT_MS, INTER_BYTE_TIMEOUT_MS, old(bus.State()), bus.State())
      ensures ok == Payload(e.captured, addr, 3).Some?
      ensures out' == if ok then WithNutrients(out, Payload(e.captured, addr, 3).value) else out
    {
      out' := out;
      ghost var s0 := bus.State();
      ReadAllCounts();
      var buf := new byte[6];
      ok := ReadHoldingRegisters(NPK_REGISTER, 3, buf);
      e := Exchange(Sent(bus.serialBound, ReadRequest(addr, NPK_REGISTER, 3)),
                    bus.Captured(), READ_TIMEOUT_MS, INTER_BYTE_TIMEOUT_MS, s0, bus.State());
      if !ok {
        return;
      }
      ghost var p := Payload(e.captured, addr, 3).value;
      assert buf[..6] == p && buf[0] == p[0] && buf[1] == p[1] && buf[2] == p[2] &&
             buf[3] == p[3] && buf[4] == p[4] && buf[5] == p[5];
      out' := out'.(nitrogen := Word(buf[0], buf[1]));
      out' := out'.(phosphorus := Word(buf[2], buf[3]));
      out' := out'.(potassium := Word(buf[4], buf[5]));
    }

    /** Block 3 followed by the range checks. */
    method ReadLast(out: Data) returns (ok: bool, out': Data, ghost e: Exchange)
      requires Valid()
      modifies bus`rxLen, bus`exchanges, bus.rxBuf, bus.mcu
      ensures Valid() && e.captured == bus.Captured()
      ensures bus.exchanges == old(bus.exchanges) + [e]
      ensures e == Exchange(Sent(bus.serialBound, ReadRequest(addr, NPK_REGISTER, 3)),
                    bus.Captured(), READ_TIMEOUT_MS, INTER_BYTE_TIMEOUT_MS, old(bus.State()), bus.State())
      ensures (ok, out') == LastOutcome(out, e.captured, addr)
    {
      ok, out', e := ReadNutrients(out);
      if !ok {
        return;
      }
      ok := !(out'.temperatureC < -40.0 || out'.temperatureC > 80.0) &&
            !(out'.humidityPct < 0.0 || out'.humidityPct > 100.0);
    }

    /** Blocks 2 and 3 followed by the range checks, stopping when block 2 fails. */
    method ReadFromClimate(out: Data) returns (ok: bool, out': Data, ghost trail: seq<Exchange>)
      requires Valid()
      modifies bus`rxLen, bus`exchanges, bus.rxBuf, bus.mcu
      ensures Valid()
      ensures bus.exchanges == old(bus.exchanges) + trail && ClimateStopped(trail, addr)
      ensures bus.Ran(trail, old(bus.State()))
      ensures ReadTimeouts(trail)
      ensures trail[0].request == Sent(bus.serialBound, ReadRequest(addr, CLIMATE_REGISTER, 4))
      ensures |trail| == 2 ==> trail[1].request == Sent(bus.serialBound, ReadRequest(addr, NPK_REGISTER, 3))
      ensures (ok, out') == ClimateOutcome(out, trail, addr)
    {
      ghost var tr0, s0 := bus.exchanges, bus.State();
      ghost var e0, e1;
      ok, out', e0 := ReadClimate(out);
      LinkedSnoc([], e0, s0);
      trail := [e0];
      if !ok {
        return;
      }
      ok, out', e1 := ReadLast(out');
      LinkedSnoc([e0], e1, s0);
      Assoc(tr0, [e0], [e1]);
      trail := [e0, e1];
    }

    /**
     * Reads pH, then registers 0x0012..0x0015, then N/P/K, writing each
     * block's fields as soon as its read succeeds, and stopping at the first
     * read that fails; the range checks come last, after every field has
     * been written. `trail` is the bus exchanges made.
     */
    method ReadAll(out: Data) returns (ok: bool, out': Data, ghost trail: seq<Exchange>)
      requires Valid()
      modifies bus`rxLen, bus`exchanges, bus.rxBuf, bus.mcu
      ensures Valid() && addr == old(addr)
      ensures bus.exchanges == old(bus.exchanges) + trail && Stopped(trail, addr)
      ensures bus.Ran(trail, old(bus.State()))
      ensures ReadTimeouts(trail)
      ensures trail[0].request == Sent(bus.serialBound, ReadRequest(addr, PH_REGISTER, 1))
      ensures |trail| >= 2 ==> trail[1].request == Sent(bus.serialBound, ReadRequest(addr, CLIMATE_REGISTER, 4))
      ensures |trail| == 3 ==> trail[2].request == Sent(bus.serialBound, ReadRequest(addr, NPK_REGISTER, 3))
      ensures (ok, out') == Outcome(out, trail, addr)
    {
      ghost var tr0, s0 := bus.exchanges, bus.State();
      ghost var e0, rest;
      ok, out', e0 := ReadPh(out);
      LinkedSnoc([], e0, s0);
      trail := [e0];
      if !ok {
        return;
      }
      ok, out', rest := ReadFromClimate(out');
      LinkedAppend([e0], rest, s0, e0.after, bus.State());
      Assoc(tr0, [e0], rest);
      trail := [e0] + rest;
      assert trail[1..] == rest;
    }
  }
}
