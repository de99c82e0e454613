/** The wind speed transmitter: holding register 0x0016 in 0.1 m/s, raw 0 to 300. */
module WindSpeed {

  import opened Types
  import opened RS485
  import opened ModbusRtu
  import Frames

  const SPEED_REGISTER: bv16 := 0x0016
  const MAX_RAW: bv16 := 300

  datatype Data = Data(windSpeedMs: real)

  /** What `readAll` reports for a capture, or None when it returns false. */
  function Reading(captured: seq<byte>, addr: byte): Option<Data> {
    match RegisterValue(captured, addr)
    case Some(raw) => if raw <= MAX_RAW then Some(Data(raw as int as real / 10.0)) else None
    case None => None
  }

  /**
   * The response of slave `addr` carrying `v`, after bytes in which no reply
   * starts, is accepted exactly when the raw value is at most 300, and then read as shown.
   */
  lemma ReadingOfResponse(noise: seq<byte>, addr: byte, v: bv16)
    requires Frames.NoFrameBefore(noise + ReadResponse(addr, 2, BigEndian([v])),
                                  [addr, READ_HOLDING_REGISTERS, 2], 7, |noise|)
    ensures Reading(noise + ReadResponse(addr, 2, BigEndian([v])), addr) ==
            if v <= MAX_RAW then Some(Data(v as int as real / 10.0)) else None
  {
    RegisterValueComplete(noise, addr, v);
  }

  /** An accepted reading decodes the register value of slave `addr`'s response, which passed the checks. */
  lemma ReadingSound(captured: seq<byte>, addr: byte)
    requires Reading(captured, addr).Some?
    ensures var raw := RegisterValue(captured, addr).value;
            raw <= MAX_RAW && Reading(captured, addr).value == Data(raw as int as real / 10.0) &&
            0.0 <= Reading(captured, addr).value.windSpeedMs <= 30.0 &&
            ReadReply(captured, addr, 2, 7) == Some(ReadResponse(addr, 2, BigEndian([raw])))
  {
    RegisterValueSound(captured, addr);
  }

  class WindSpeedSensor {
    const bus: RS485Bus
    var addr: byte

    ghost predicate Valid()
      reads this, bus
    {
      bus.Valid()
    }

    constructor (bus: RS485Bus, address: byte)
      ensures this.bus == bus && addr == address
    {
      this.bus := bus;
      addr := address;
    }

    method SetAddress(address: byte)
      modifies this`addr
      ensures addr == address
    {
      addr := address;
    }

    /**
     * Reads register 0x0016 and accepts raw values up to 300, reported as
     * raw / 10 m/s; `out` is returned unchanged on any failure.
     */
    method ReadAll(out: Data) returns (ok: bool, out': Data)
      requires Valid()
      modifies bus`rxLen, bus`exchanges, bus.rxBuf, bus.mcu
      ensures Valid() && addr == old(addr)
      ensures bus.exchanges ==
              old(bus.exchanges) +
              [Exchange(Sent(bus.serialBound, ReadRequest(addr, SPEED_REGISTER, 1)),
                        bus.Captured(), READ_TIMEOUT_MS, INTER_BYTE_TIMEOUT_MS, old(bus.State()), bus.State())]
      ensures ok == Reading(bus.Captured(), addr).Some?
      ensures out' == if ok then Reading(bus.Captured(), addr).value else out
    {
      out' := out;
      var raw := ReadRegister(bus, addr, SPEED_REGISTER);
      if raw.None? {
        return false, out';
      }
      if raw.value > MAX_RAW {
        return false, out';
      }
      out' := out'.(windSpeedMs := raw.value as int as real / 10.0);
      ok := true;
    }

    /** Writes `newAddress` to register 0x0100; the address changes only when the echo is extracted. */
    method ChangeAddress(newAddress: byte) returns (ok: bool)
      requires Valid()
      modifies this`addr, bus`rxLen, bus`exchanges, bus.rxBuf, bus.mcu
      ensures Valid()
      ensures bus.exchanges ==
              old(bus.exchanges) +
              [Exchange(Sent(bus.serialBound, AddressRequest(old(addr), newAddress)),
                        bus.Captured(), WRITE_TIMEOUT_MS, INTER_BYTE_TIMEOUT_MS, old(bus.State()), bus.State())]
      ensures ok == AddressEcho(bus.Captured(), old(addr), newAddress)
      ensures addr == if ok then newAddress else old(addr)
    {
      ok := WriteAddress(bus, addr, newAddress);
      if ok {
        addr := newAddress;
      }
    }
  }
}
