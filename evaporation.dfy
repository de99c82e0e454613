/** The evaporation gauge: holding register 0x0006, fault pattern 0xFFFF, bound 200; a tare command. */
module Evaporation {

  import opened Types
  import opened RS485
  import opened ModbusRtu
  import Frames

  const EVAPORATION_REGISTER: bv16 := 0x0006
  const FAULT: bv16 := 0xFFFF
  const MAX_RAW: bv16 := 200
  const TARE_REGISTER: bv16 := 0x0102
  const TARE_VALUE: bv16 := 0x0001

  datatype Data = Data(evaporationRaw: bv16)

  /** What `readAll` reports for a capture, or None when it returns false. */
  function Reading(captured: seq<byte>, addr: byte): Option<Data> {
    match RegisterValue(captured, addr)
    case Some(raw) => if raw != FAULT && raw <= MAX_RAW then Some(Data(raw)) else None
    case None => None
  }

  /**
   * The response of slave `addr` carrying `v`, after bytes in which no reply
   * starts, is accepted exactly when it is at most 200, and then read as shown.
   */
  lemma ReadingOfResponse(noise: seq<byte>, addr: byte, v: bv16)
    requires Frames.NoFrameBefore(noise + ReadResponse(addr, 2, BigEndian([v])),
                                  [addr, READ_HOLDING_REGISTERS, 2], 7, |noise|)
    ensures Reading(noise + ReadResponse(addr, 2, BigEndian([v])), addr) ==
            if v != FAULT && v <= MAX_RAW then Some(Data(v)) else None
  {
    RegisterValueComplete(noise, addr, v);
  }

  /** An accepted reading decodes the register value of slave `addr`'s response, which passed the checks. */
  lemma ReadingSound(captured: seq<byte>, addr: byte)
    requires Reading(captured, addr).Some?
    ensures var raw := RegisterValue(captured, addr).value;
            raw != FAULT && raw <= MAX_RAW && Reading(captured, addr).value == Data(raw) &&
            ReadReply(captured, addr, 2, 7) == Some(ReadResponse(addr, 2, BigEndian([raw])))
  {
    RegisterValueSound(captured, addr);
  }

  /** The fault check is subsumed by the bound: the accepted values are exactly 0..200. */
  lemma AcceptedRange(captured: seq<byte>, addr: byte)
    ensures Reading(captured, addr).Some? <==>
            RegisterValue(captured, addr).Some? && RegisterValue(captured, addr).value <= MAX_RAW
  {
  }

  /** `{addr, 0x06, 0x01, 0x02, 0x00, 0x01, crc}` with the echo prefix `{addr, 0x06, 0x01, 0x02}`. */
  lemma TareRequestBytes(addr: byte)
    ensures WriteRequest(addr, TARE_REGISTER, TARE_VALUE)[..6] == [addr, 0x06, 0x01, 0x02, 0x00, 0x01]
    ensures RequestBody(addr, WRITE_SINGLE_REGISTER, TARE_REGISTER, TARE_VALUE)[..4] == [addr, 0x06, 0x01, 0x02]
  {
  }

  class EvaporationSensor {
    const bus: RS485Bus
    var addr: byte

    ghost predicate Valid()
      reads this, bus
    {
      bus.Valid()
    }

    constructor (bus: RS485Bus, address: byte)
      ensures this.bus == bus && addr == address
    {
      this.bus := bus;
      addr := address;
    }

    method SetAddress(address: byte)
      modifies this`addr
      ensures addr == address
    {
      addr := address;
    }

    /**
     * Reads register 0x0006, rejecting the fault pattern 0xFFFF and values
     * above 200; `out` is returned unchanged on any failure.
     */
    method ReadAll(out: Data) returns (ok: bool, out': Data)
      requires Valid()
      modifies bus`rxLen, bus`exchanges, bus.rxBuf, bus.mcu
      ensures Valid() && addr == old(addr)
      ensures bus.exchanges ==
              old(bus.exchanges) +
              [Exchange(Sent(bus.serialBound, ReadRequest(addr, EVAPORATION_REGISTER, 1)),
                        bus.Captured(), READ_TIMEOUT_MS, INTER_BYTE_TIMEOUT_MS, old(bus.State()), bus.State())]
      ensures ok == Reading(bus.Captured(), addr).Some?
      ensures out' == if ok then Reading(bus.Captured(), addr).value else out
    {
      out' := out;
      var raw := ReadRegister(bus, addr, EVAPORATION_REGISTER);
      if raw.None? {
        return false, out';
      }
      if raw.value == FAULT {
        return false, out';
      }
      if raw.value > MAX_RAW {
        return false, out';
      }
      out' := out'.(evaporationRaw := raw.value);
      ok := true;
    }

    /** Writes 0x0001 to register 0x0102 and reports whether the echo, checked on its first four bytes, came back; the address never changes. */
    method Tare() returns (ok: bool)
      requires Valid()
      modifies bus`rxLen, bus`exchanges, bus.rxBuf, bus.mcu
      ensures Valid() && addr == old(addr)
      ensures bus.exchanges ==
              old(bus.exchanges) +
              [Exchange(Sent(bus.serialBound, WriteRequest(addr, TARE_REGISTER, TARE_VALUE)),
                        bus.Captured(), WRITE_TIMEOUT_MS, INTER_BYTE_TIMEOUT_MS, old(bus.State()), bus.State())]
      ensures ok == WriteEcho(bus.Captured(), addr, TARE_REGISTER, TARE_VALUE, 4).Some?
    {
      ok := WriteRegister(bus, addr, TARE_REGISTER, TARE_VALUE, 4);
    }

    /** Writes `newAddress` to register 0x0100; the address changes only when the echo is extracted. */
    method ChangeAddress(newAddress: byte) returns (ok: bool)
      requires Valid()
      modifies this`addr, bus`rxLen, bus`exchanges, bus.rxBuf, bus.mcu
      ensures Valid()
      ensures bus.exchanges ==
              old(bus.exchanges) +
              [Exchange(Sent(bus.serialBound, AddressRequest(old(addr), newAddress)),
                        bus.Captured(), WRITE_TIMEOUT_MS, INTER_BYTE_TIMEOUT_MS, old(bus.State()), bus.State())]
      ensures ok == AddressEcho(bus.Captured(), old(addr), newAddress)
      ensures addr == if ok then newAddress else old(addr)
    {
      ok := WriteAddress(bus, addr, newAddress);
      if ok {
        addr := newAddress;
      }
    }
  }
}
