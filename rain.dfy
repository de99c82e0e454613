/** The rain gauge: holding register 0x0003 in 0.1 mm, fault patterns 0xFFFF and 0x7FFF; a clear command. */
module Rain {

  import opened Types
  import opened RS485
  import opened ModbusRtu
  import Frames

  const RAINFALL_REGISTER: bv16 := 0x0003
  const FAULT_ALL_ONES: bv16 := 0xFFFF
  const FAULT_MAX_POSITIVE: bv16 := 0x7FFF
  const CLEAR_REGISTER: bv16 := 0x0105
  const CLEAR_VALUE: bv16 := 0x0000

  datatype Data = Data(rainfallMm: real)

  /** What `readAll` reports for a capture, or None when it returns false. */
  function Reading(captured: seq<byte>, addr: byte): Option<Data> {
    match RegisterValue(captured, addr)
    case Some(raw) => if raw != FAULT_ALL_ONES && raw != FAULT_MAX_POSITIVE then Some(Data(raw as int as real / 10.0)) else None
    case None => None
  }

  /**
   * The response of slave `addr` carrying `v`, after bytes in which no reply
   * starts, is accepted exactly when it is neither fault pattern, and then read as shown.
   */
  lemma ReadingOfResponse(noise: seq<byte>, addr: byte, v: bv16)
    requires Frames.NoFrameBefore(noise + ReadResponse(addr, 2, BigEndian([v])),
                                  [addr, READ_HOLDING_REGISTERS, 2], 7, |noise|)
    ensures Reading(noise + ReadResponse(addr, 2, BigEndian([v])), addr) ==
            if v != FAULT_ALL_ONES && v != FAULT_MAX_POSITIVE then Some(Data(v as int as real / 10.0)) else None
  {
    RegisterValueComplete(noise, addr, v);
  }

  /** An accepted reading decodes the register value of slave `addr`'s response, which passed the checks. */
  lemma ReadingSound(captured: seq<byte>, addr: byte)
    requires Reading(captured, addr).Some?
    ensures var raw := RegisterValue(captured, addr).value;
            raw != FAULT_ALL_ONES && raw != FAULT_MAX_POSITIVE && Reading(captured, addr).value == Data(raw as int as real / 10.0) &&
            ReadReply(captured, addr, 2, 7) == Some(ReadResponse(addr, 2, BigEndian([raw])))
  {
    RegisterValueSound(captured, addr);
  }

  /** `{addr, 0x06, 0x01, 0x05, 0x00, 0x00, crc}` with the echo prefix `{addr, 0x06, 0x01, 0x05}`. */
  lemma ClearRequestBytes(addr: byte)
    ensures WriteRequest(addr, CLEAR_REGISTER, CLEAR_VALUE)[..6] == [addr, 0x06, 0x01, 0x05, 0x00, 0x00]
    ensures RequestBody(addr, WRITE_SINGLE_REGISTER, CLEAR_REGISTER, CLEAR_VALUE)[..4] == [addr, 0x06, 0x01, 0x05]
  {
  }

  class RainSensor {
    const bus: RS485Bus
    var addr: byte

    ghost predicate Valid()
      reads this, bus
    {
      bus.Valid()
    }

    constructor (bus: RS485Bus, address: byte)
      ensures this.bus == bus && addr == address
    {
      this.bus := bus;
      addr := address;
    }

    method SetAddress(address: byte)
      modifies this`addr
      ensures addr == address
    {
      addr := address;
    }

    /**
     * Reads register 0x0003, rejecting only the fault patterns 0xFFFF and
     * 0x7FFF, and reports raw / 10 mm; `out` is returned unchanged on any
     * failure.
     */
    method ReadAll(out: Data) returns (ok: bool, out': Data)
      requires Valid()
      modifies bus`rxLen, bus`exchanges, bus.rxBuf, bus.mcu
      ensures Valid() && addr == old(addr)
      ensures bus.exchanges ==
              old(bus.exchanges) +
              [Exchange(Sent(bus.serialBound, ReadRequest(addr, RAINFALL_REGISTER, 1)),
                        bus.Captured(), READ_TIMEOUT_MS, INTER_BYTE_TIMEOUT_MS, old(bus.State()), bus.State())]
      ensures ok == Reading(bus.Captured(), addr).Some?
      ensures out' == if ok then Reading(bus.Captured(), addr).value else out
    {
      out' := out;
      var raw := ReadRegister(bus, addr, RAINFALL_REGISTER);
      if raw.None? {
        return false, out';
      }
      if raw.value == FAULT_ALL_ONES || raw.value == FAULT_MAX_POSITIVE {
        return false, out';
      }
      out' := out'.(rainfallMm := raw.value as int as real / 10.0);
      ok := true;
    }

    /** Writes 0x0000 to register 0x0105 and reports whether the echo, checked on its first four bytes, came back. */
    method ClearRainfall() returns (ok: bool)
      requires Valid()
      modifies bus`rxLen, bus`exchanges, bus.rxBuf, bus.mcu
      ensures Valid() && addr == old(addr)
      ensures bus.exchanges ==
              old(bus.exchanges) +
              [Exchange(Sent(bus.serialBound, WriteRequest(addr, CLEAR_REGISTER, CLEAR_VALUE)),
                        bus.Captured(), WRITE_TIMEOUT_MS, INTER_BYTE_TIMEOUT_MS, old(bus.State()), bus.State())]
      ensures ok == WriteEcho(bus.Captured(), addr, CLEAR_REGISTER, CLEAR_VALUE, 4).Some?
    {
      ok := WriteRegister(bus, addr, CLEAR_REGISTER, CLEAR_VALUE, 4);
    }
  }
}
