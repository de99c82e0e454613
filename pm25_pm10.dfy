/**
 * The particulate matter transmitter: PM2.5 in holding register 0x0004 and
 * PM10 in 0x0009, each read on its own and each bounded by 300 ug/m3.
 */
module Pm25Pm10 {

  import opened Types
  import opened RS485
  import opened ModbusRtu

  const PM25_REGISTER: bv16 := 0x0004
  const PM10_REGISTER: bv16 := 0x0009
  const MAX_PM: bv16 := 300

  datatype Data = Data(pm25: bv16, pm10: bv16)

  /** A read that succeeded and passed the bound. */
  predicate Accepted(v: Option<bv16>) {
    v.Some? && v.value <= MAX_PM
  }

  class PM25PM10Sensor {
    const bus: RS485Bus
    var addr: byte

    ghost predicate Valid()
      reads this, bus
    {
      bus.Valid()
    }

    constructor (bus: RS485Bus, address: byte)
      ensures this.bus == bus && addr == address
    {
      this.bus := bus;
      addr := address;
    }

    method SetAddress(address: byte)
      modifies this`addr
      ensures addr == address
    {
      addr := address;
    }

    /**
     * Reads PM2.5, and only when that read passed its bound, PM10. PM2.5 is
     * stored before the second read, so a PM10 failure returns `out` with
     * the new PM2.5 and the old PM10. `trail` is the bus exchanges made.
     */
    method ReadAll(out: Data) returns (ok: bool, out': Data, ghost trail: seq<Exchange>)
      requires Valid()
      modifies bus`rxLen, bus`exchanges, bus.rxBuf, bus.mcu
      ensures Valid() && addr == old(addr)
      ensures bus.exchanges == old(bus.exchanges) + trail && 1 <= |trail| <= 2 && ReadTimeouts(trail)
      ensures bus.Ran(trail, old(bus.State()))
      ensures trail[0].request == Sent(bus.serialBound, ReadRequest(addr, PM25_REGISTER, 1))
      ensures var pm25 := RegisterValue(trail[0].captured, addr);
              (|trail| == 2 <==> Accepted(pm25)) &&
              (|trail| == 1 ==> !ok && out' == out)
      ensures |trail| == 2 ==>
                var pm25, pm10 := RegisterValue(trail[0].captured, addr), RegisterValue(trail[1].captured, addr);
                trail[1].request == Sent(bus.serialBound, ReadRequest(addr, PM10_REGISTER, 1)) &&
                ok == Accepted(pm10) &&
                out' == if ok then Data(pm25.value, pm10.value) else out.(pm25 := pm25.value)
    {
      out' := out;
      ghost var s0 := bus.State();
      var pm25 := ReadRegister(bus, addr, PM25_REGISTER);
      ghost var first := Exchange(Sent(bus.serialBound, ReadRequest(addr, PM25_REGISTER, 1)),
                                  bus.Captured(), READ_TIMEOUT_MS, INTER_BYTE_TIMEOUT_MS, s0, bus.State());
      LinkedSnoc([], first, s0);
      trail := [first];
      if pm25.None? {
        return false, out', trail;
      }
      if pm25.value > MAX_PM {
        return false, out', trail;
      }
      out' := out'.(pm25 := pm25.value);

      ghost var s1 := bus.State();
      var pm10 := ReadRegister(bus, addr, PM10_REGISTER);
      ghost var second := Exchange(Sent(bus.serialBound, ReadRequest(addr, PM10_REGISTER, 1)),
                                   bus.Captured(), READ_TIMEOUT_MS, INTER_BYTE_TIMEOUT_MS, s1, bus.State());
      LinkedSnoc([first], second, s0);
      assert bus.exchanges == old(bus.exchanges) + [first, second] by {
        Assoc(old(bus.exchanges), [first], [second]);
      }
      trail := [first, second];
      if pm10.None? {
        return false, out', trail;
      }
      if pm10.value > MAX_PM {
        return false, out', trail;
      }
      out' := out'.(pm10 := pm10.value);
      ok := true;
    }

    /** Writes `newAddress` to register 0x0100; the address changes only when the echo is extracted. */
    method ChangeAddress(newAddress: byte) returns (ok: bool)
      requires Valid()
      modifies this`addr, bus`rxLen, bus`exchanges, bus.rxBuf, bus.mcu
      ensures Valid()
      ensures bus.exchanges ==
              old(bus.exchanges) +
              [Exchange(Sent(bus.serialBound, AddressRequest(old(addr), newAddress)),
                        bus.Captured(), WRITE_TIMEOUT_MS, INTER_BYTE_TIMEOUT_MS, old(bus.State()), bus.State())]
      ensures ok == AddressEcho(bus.Captured(), old(addr), newAddress)
      ensures addr == if ok then newAddress else old(addr)
    {
      ok := WriteAddress(bus, addr, newAddress);
      if ok {
        addr := newAddress;
      }
    }
  }
}
