/** The wind direction transmitter: holding register 0x0000 in degrees, 0 to 360. */
module WindDirection {

  import opened Types
  import opened RS485
  import opened ModbusRtu
  import Frames

  const DIRECTION_REGISTER: bv16 := 0x0000
  const MAX_DEGREES: bv16 := 360

  datatype Data = Data(directionDeg: bv16)

  /** What `readAll` reports for a capture, or None when it returns false. */
  function Reading(captured: seq<byte>, addr: byte): Option<Data> {
    match RegisterValue(captured, addr)
    case Some(raw) => if raw <= MAX_DEGREES then Some(Data(raw)) else None
    case None => None
  }

  /**
   * The response of slave `addr` carrying `v`, after bytes in which no reply
   * starts, is accepted exactly when it is at most 360, and then read as shown.
   */
  lemma ReadingOfResponse(noise: seq<byte>, addr: byte, v: bv16)
    requires Frames.NoFrameBefore(noise + ReadResponse(addr, 2, BigEndian([v])),
                                  [addr, READ_HOLDING_REGISTERS, 2], 7, |noise|)
    ensures Reading(noise + ReadResponse(addr, 2, BigEndian([v])), addr) ==
            if v <= MAX_DEGREES then Some(Data(v)) else None
  {
    RegisterValueComplete(noise, addr, v);
  }

  /** An accepted reading decodes the register value of slave `addr`'s response, which passed the checks. */
  lemma ReadingSound(captured: seq<byte>, addr: byte)
    requires Reading(captured, addr).Some?
    ensures var raw := RegisterValue(captured, addr).value;
            raw <= MAX_DEGREES && Reading(captured, addr).value == Data(raw) &&
            ReadReply(captured, addr, 2, 7) == Some(ReadResponse(addr, 2, BigEndian([raw])))
  {
    RegisterValueSound(captured, addr);
  }

  class WindDirectionSensor {
    const bus: RS485Bus
    var addr: byte

    ghost predicate Valid()
      reads this, bus
    {
      bus.Valid()
    }

    constructor (bus: RS485Bus, address: byte)
      ensures this.bus == bus && addr == address
    {
      this.bus := bus;
      addr := address;
    }

    method SetAddress(address: byte)
      modifies this`addr
      ensures addr == address
    {
      addr := address;
    }

    /**
     * Reads register 0x0000 and accepts it when at most 360; `out` is
     * returned unchanged on any failure.
     */
    method ReadAll(out: Data) returns (ok: bool, out': Data)
      requires Valid()
      modifies bus`rxLen, bus`exchanges, bus.rxBuf, bus.mcu
      ensures Valid() && addr == old(addr)
      ensures bus.exchanges ==
              old(bus.exchanges) +
              [Exchange(Sent(bus.serialBound, ReadRequest(addr, DIRECTION_REGISTER, 1)),
                        bus.Captured(), READ_TIMEOUT_MS, INTER_BYTE_TIMEOUT_MS, old(bus.State()), bus.State())]
      ensures ok == Reading(bus.Captured(), addr).Some?
      ensures out' == if ok then Reading(bus.Captured(), addr).value else out
    {
      out' := out;
      var raw := ReadRegister(bus, addr, DIRECTION_REGISTER);
      if raw.None? {
        return false, out';
      }
      if raw.value > MAX_DEGREES {
        return false, out';
      }
      out' := out'.(directionDeg := raw.value);
      ok := true;
    }

    /** Writes `newAddress` to register 0x0100; the address changes only when the echo is extracted. */
    method ChangeAddress(newAddress: byte) returns (ok: bool)
      requires Valid()
      modifies this`addr, bus`rxLen, bus`exchanges, bus.rxBuf, bus.mcu
      ensures Valid()
      ensures bus.exchanges ==
              old(bus.exchanges) +
              [Exchange(Sent(bus.serialBound, AddressRequest(old(addr), newAddress)),
                        bus.Captured(), WRITE_TIMEOUT_MS, INTER_BYTE_TIMEOUT_MS, old(bus.State()), bus.State())]
      ensures ok == AddressEcho(bus.Captured(), old(addr), newAddress)
      ensures addr == if ok then newAddress else old(addr)
    {
      ok := WriteAddress(bus, addr, newAddress);
      if ok {
        addr := newAddress;
      }
    }
  }
}
