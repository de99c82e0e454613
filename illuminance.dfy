/** The illuminance transmitter: registers 0x0007 and 0x0008 hold a 32-bit lux value, high word first. */
module Illuminance {

  import opened Types
  import opened RS485
  import opened ModbusRtu
  import Frames

  const LUX_REGISTER: bv16 := 0x0007
  const WORD_COUNT: bv16 := 2
  const MAX_LUX: bv32 := 300000

  datatype Data = Data(lux: bv32)

  /** The 32-bit value whose upper half is `hi` and lower half `lo`: no bits are lost or overlap. */
  function Lux(hi: bv16, lo: bv16): (l: bv32)
    ensures (l >> 16) as bv16 == hi && (l & 0xFFFF) as bv16 == lo
  {
    ((hi as bv32) << 16) | (lo as bv32)
  }

  /** The bound holds exactly when the high word is below 4, or is 4 with a low word of at most 0x93E0. */
  lemma LuxBound(hi: bv16, lo: bv16)
    ensures Lux(hi, lo) <= MAX_LUX <==> hi < 4 || (hi == 4 && lo <= 0x93E0)
  {
  }

  /** What `readAll` reports for a capture, or None when it returns false. */
  function Reading(captured: seq<byte>, addr: byte): Option<Data> {
    match ReadPayload(captured, addr, 4, 9)
    case Some(p) =>
      var lux := Lux(Word(p[0], p[1]), Word(p[2], p[3]));
      if lux <= MAX_LUX then Some(Data(lux)) else None
    case None => None
  }

  /**
   * The response of slave `addr` carrying the words `hi` and `lo`, after
   * bytes in which no reply starts, is accepted exactly when
   * the combined value is at most 300000, and then read as that value.
   */
  lemma ReadingOfResponse(noise: seq<byte>, addr: byte, hi: bv16, lo: bv16)
    requires Frames.NoFrameBefore(noise + ReadResponse(addr, 4, BigEndian([hi, lo])),
                                  [addr, READ_HOLDING_REGISTERS, 4], 9, |noise|)
    ensures Reading(noise + ReadResponse(addr, 4, BigEndian([hi, lo])), addr) ==
            if Lux(hi, lo) <= MAX_LUX then Some(Data(Lux(hi, lo))) else None
  {
    ReadPayloadComplete(noise, addr, 4, BigEndian([hi, lo]), 9);
    BigEndianWord([hi, lo], 0);
    BigEndianWord([hi, lo], 1);
  }

  /** An accepted reading is at most 300000 and is the value slave `addr`'s response carried. */
  lemma ReadingSound(captured: seq<byte>, addr: byte)
    requires Reading(captured, addr).Some?
    ensures var p := ReadPayload(captured, addr, 4, 9).value;
            var hi, lo := Word(p[0], p[1]), Word(p[2], p[3]);
            Reading(captured, addr).value.lux == Lux(hi, lo) <= MAX_LUX &&
            ReadReply(captured, addr, 4, 9) == Some(ReadResponse(addr, 4, BigEndian([hi, lo])))
  {
    ReadPayloadSound(captured, addr, 4, 9);
    var p := ReadPayload(captured, addr, 4, 9).value;
    assert BigEndian([Word(p[0], p[1]), Word(p[2], p[3])]) == p;
  }

  class IlluminanceSensor {
    const bus: RS485Bus
    var addr: byte

    ghost predicate Valid()
      reads this, bus
    {
      bus.Valid()
    }

    constructor (bus: RS485Bus, address: byte)
      ensures this.bus == bus && addr == address
    {
      this.bus := bus;
      addr := address;
    }

    method SetAddress(address: byte)
      modifies this`addr
      ensures addr == address
    {
      addr := address;
    }

    /**
     * Reads registers 0x0007..0x0008 in one request and accepts the combined
     * value when at most 300000; `out` is returned unchanged on any failure.
     */
    method ReadAll(out: Data) returns (ok: bool, out': Data)
      requires Valid()
      modifies bus`rxLen, bus`exchanges, bus.rxBuf, bus.mcu
      ensures Valid() && addr == old(addr)
      ensures bus.exchanges ==
              old(bus.exchanges) +
              [Exchange(Sent(bus.serialBound, ReadRequest(addr, LUX_REGISTER, WORD_COUNT)),
                        bus.Captured(), READ_TIMEOUT_MS, INTER_BYTE_TIMEOUT_MS, old(bus.State()), bus.State())]
      ensures ok == Reading(bus.Captured(), addr).Some?
      ensures out' == if ok then Reading(bus.Captured(), addr).value else out
    {
      out' := out;
      var p := ReadBlock(bus, addr, LUX_REGISTER, WORD_COUNT, 4, 9);
      if p.None? {
        return false, out';
      }
      var hi := Word(p.value[0], p.value[1]);
      var lo := Word(p.value[2], p.value[3]);
      var lux := Lux(hi, lo);
      if lux > MAX_LUX {
        return false, out';
      }
      out' := out'.(lux := lux);
      ok := true;
    }

    /** Writes `newAddress` to register 0x0100; the address changes only when the echo is extracted. */
    method ChangeAddress(newAddress: byte) returns (ok: bool)
      requires Valid()
      modifies this`addr, bus`rxLen, bus`exchanges, bus.rxBuf, bus.mcu
      ensures Valid()
      ensures bus.exchanges ==
              old(bus.exchanges) +
              [Exchange(Sent(bus.serialBound, AddressRequest(old(addr), newAddress)),
                        bus.Captured(), WRITE_TIMEOUT_MS, INTER_BYTE_TIMEOUT_MS, old(bus.State()), bus.State())]
      ensures ok == AddressEcho(bus.Captured(), old(addr), newAddress)
      ensures addr == if ok then newAddress else old(addr)
    {
      ok := WriteAddress(bus, addr, newAddress);
      if ok {
        addr := newAddress;
      }
    }
  }
}
