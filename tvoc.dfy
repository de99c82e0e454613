/**
 * The TVOC air-quality board: six non-contiguous holding registers, each
 * read in its own request, in the order humidity (0x0000, /10 %RH),
 * temperature (0x0001, signed, /10 degC), PM2.5 (0x0004), CO2 (0x0005),
 * TVOC (0x0006) and PM10 (0x0009).
 */
module Tvoc {

  import opened Types
  import opened RS485
  import opened ModbusRtu

  const REGISTERS: seq<bv16> := [0x0000, 0x0001, 0x0004, 0x0005, 0x0006, 0x0009]

  datatype Data = Data(humidityPct: real, temperatureC: real, pm25: bv16, co2Ppm: bv16, tvocPpb: bv16, pm10: bv16)

  /**
   * The register values of the reads in `trail`, in order, when every one
   * of them extracted a reply; None as soon as one did not.
   */
  function Raws(trail: seq<Exchange>, addr: byte): (r: Option<seq<bv16>>)
    ensures r.Some? ==> |r.value| == |trail|
    decreases |trail|
  {
    if trail == [] then Some([])
    else
      match Raws(trail[..|trail| - 1], addr)
      case None => None
      case Some(vs) =>
        match RegisterValue(trail[|trail| - 1].captured, addr)
        case None => None
        case Some(v) => Some(vs + [v])
  }

  /** The bound checks of `readAll`, applied to the six raw values in register order. */
  function Reading(raws: seq<bv16>): Option<Data>
    requires |raws| == 6
  {
    var hum := raws[0] as int as real / 10.0;
    var temp := Signed(raws[1]) as real / 10.0;
    if hum < 0.0 || hum > 100.0 then None
    else if temp < -40.0 || temp > 80.0 then None
    else if raws[3] < 400 || raws[3] > 5000 then None
    else if raws[4] > 1000 then None
    else if raws[2] > 300 then None
    else if raws[5] > 300 then None
    else Some(Data(hum, temp, raws[2], raws[3], raws[4], raws[5]))
  }

  /**
   * The bounds in register units: humidity at most 1000 tenths, temperature
   * -400 to 800 tenths, CO2 400 to 5000, TVOC at most 1000, PM at most 300.
   */
  lemma ReadingBounds(raws: seq<bv16>)
    requires |raws| == 6
    ensures Reading(raws).Some? <==>
              raws[0] <= 1000 && -400 <= Signed(raws[1]) <= 800 && 400 <= raws[3] <= 5000 &&
              raws[4] <= 1000 && raws[2] <= 300 && raws[5] <= 300
    ensures Reading(raws).Some? ==>
              Reading(raws).value.humidityPct * 10.0 == raws[0] as int as real &&
              Reading(raws).value.temperatureC * 10.0 == Signed(raws[1]) as real
  {
  }

  /** A read after which `readAll` goes on: its reply was extracted. */
  lemma RawsSnoc(trail: seq<Exchange>, e: Exchange, addr: byte)
    ensures Raws(trail + [e], addr) ==
              if Raws(trail, addr).Some? && RegisterValue(e.captured, addr).Some?
              then Some(Raws(trail, addr).value + [RegisterValue(e.captured, addr).value])
              else None
  {
    assert (trail + [e])[..|trail|] == trail;
  }

  /** A trail whose every capture is exactly a response carrying `vs[k]` reads as `vs`. */
  lemma {:induction false} RawsOfResponses(trail: seq<Exchange>, addr: byte, vs: seq<bv16>)
    requires |trail| == |vs|
    requires forall k :: 0 <= k < |trail| ==> trail[k].captured == ReadResponse(addr, 2, BigEndian([vs[k]]))
    ensures Raws(trail, addr) == Some(vs)
    decreases |trail|
  {
    if trail != [] {
      var n := |trail| - 1;
      assert forall k :: 0 <= k < n ==> trail[..n][k] == trail[k];
      RawsOfResponses(trail[..n], addr, vs[..n]);
      CleanRegisterValue(addr, vs[n]);
      assert vs == vs[..n] + [vs[n]];
    }
  }

  /** Each collected value is the register value of its own exchange's capture. */
  lemma {:induction false} RawsSound(trail: seq<Exchange>, addr: byte)
    requires Raws(trail, addr).Some?
    ensures forall k :: 0 <= k < |trail| ==> RegisterValue(trail[k].captured, addr) == Some(Raws(trail, addr).value[k])
    decreases |trail|
  {
    if trail != [] {
      var n := |trail| - 1;
      RawsSound(trail[..n], addr);
      assert forall k :: 0 <= k < n ==> trail[..n][k] == trail[k];
    }
  }

  /**
   * Ghost view of the most recent bus exchange as the request for `reg`,
   * made from bus state `s0`, with the current capture and bus state.
   */
  ghost function ReadExchange(bus: RS485Bus, addr: byte, reg: bv16, s0: BusState): Exchange
    reads bus, bus.mcu, bus.rxBuf
    requires bus.Valid()
  {
    Exchange(Sent(bus.serialBound, ReadRequest(addr, reg, 1)),
             bus.Captured(), READ_TIMEOUT_MS, INTER_BYTE_TIMEOUT_MS, s0, bus.State())
  }

  /** The requests of `trail` are the reads of the first |trail| registers, in order, with the read timeouts. */
  ghost predicate Requests(trail: seq<Exchange>, serialBound: bool, addr: byte) {
    |trail| <= 6 && ReadTimeouts(trail) &&
    forall k :: 0 <= k < |trail| ==> trail[k].request == Sent(serialBound, ReadRequest(addr, REGISTERS[k], 1))
  }

  /** The reads went on exactly while they succeeded: all but the last extracted a reply, and fewer than six means the last did not. */
  ghost predicate StoppedAtFailure(trail: seq<Exchange>, addr: byte) {
    1 <= |trail| <= 6 && Raws(trail[..|trail| - 1], addr).Some? &&
    (|trail| < 6 ==> Raws(trail, addr).None?)
  }

  /** One more read, after reads that all succeeded. */
  lemma Extended(before: seq<Exchange>, trail: seq<Exchange>, e: Exchange, serialBound: bool, addr: byte)
    requires Requests(trail, serialBound, addr) && |trail| < 6 && Raws(trail, addr).Some?
    requires e.request == Sent(serialBound, ReadRequest(addr, REGISTERS[|trail|], 1))
    requires e.overallMs == READ_TIMEOUT_MS && e.interByteMs == INTER_BYTE_TIMEOUT_MS
    ensures (before + trail) + [e] == before + (trail + [e])
    ensures Requests(trail + [e], serialBound, addr)
    ensures (trail + [e])[..|trail|] == trail
    ensures Raws(trail + [e], addr).Some? <==> RegisterValue(e.captured, addr).Some?
    ensures Raws(trail + [e], addr).Some? ==>
              Raws(trail + [e], addr).value == Raws(trail, addr).value + [RegisterValue(e.captured, addr).value]
  {
    Assoc(before, trail, [e]);
    RequestsSnoc(trail, e, serialBound, addr);
    RawsSnoc(trail, e, addr);
  }

  /** The request of the next register extends the requests of a trail. */
  lemma RequestsSnoc(trail: seq<Exchange>, e: Exchange, serialBound: bool, addr: byte)
    requires Requests(trail, serialBound, addr) && |trail| < 6
    requires e.request == Sent(serialBound, ReadRequest(addr, REGISTERS[|trail|], 1))
    requires e.overallMs == READ_TIMEOUT_MS && e.interByteMs == INTER_BYTE_TIMEOUT_MS
    ensures Requests(trail + [e], serialBound, addr)
  {
    var t := trail + [e];
    assert forall k :: 0 <= k < |trail| ==> t[k] == trail[k];
  }

  /** The six values, collected one read at a time, at their positions. */
  lemma SixValues(a: bv16, b: bv16, c: bv16, d: bv16, e: bv16, f: bv16)
    ensures var s := [] + [a] + [b] + [c] + [d] + [e] + [f];
            |s| == 6 && s[0] == a && s[1] == b && s[2] == c && s[3] == d && s[4] == e && s[5] == f
  {
  }

  class TVOCSensor {
    const bus: RS485Bus
    var addr: byte

    ghost predicate Valid()
      reads this, bus
    {
      bus.Valid()
    }

    constructor (bus: RS485Bus, address: byte)
      ensures this.bus == bus && addr == address
    {
      this.bus := bus;
      addr := address;
    }

    method SetAddress(address: byte)
      modifies this`addr
      ensures addr == address
    {
      addr := address;
    }

    /** `readU16`: one register; `val` is left as it was when no reply is extracted. */
    method ReadU16(reg: bv16, val: bv16) returns (ok: bool, val': bv16)
      requires Valid()
      modifies bus`rxLen, bus`exchanges, bus.rxBuf, bus.mcu
      ensures Valid()
      ensures bus.exchanges == old(bus.exchanges) + [ReadExchange(bus, addr, reg, old(bus.State()))]
      ensures ok == RegisterValue(bus.Captured(), addr).Some?
      ensures val' == if ok then RegisterValue(bus.Captured(), addr).value else val
    {
      var v := ReadRegister(bus, addr, reg);
      if v.None? {
        return false, val;
      }
      return true, v.value;
    }

    /** `readS16`: `readU16`, then the bit pattern reinterpreted as a signed 16-bit value. */
    method ReadS16(reg: bv16, val: int16) returns (ok: bool, val': int16)
      requires Valid()
      modifies bus`rxLen, bus`exchanges, bus.rxBuf, bus.mcu
      ensures Valid()
      ensures bus.exchanges == old(bus.exchanges) + [ReadExchange(bus, addr, reg, old(bus.State()))]
      ensures ok == RegisterValue(bus.Captured(), addr).Some?
      ensures val' == if ok then Signed(RegisterValue(bus.Captured(), addr).value) else val
    {
      var u;
      ok, u := ReadU16(reg, 0);
      val' := if ok then Signed(u) else val;
    }

    /**
     * `readU16` as the next of the six reads: the exchange it makes extends
     * `trail`, and its value extends `vals` when it succeeded.
     */
    method ReadStep(reg: bv16, ghost before: seq<Exchange>, ghost s0: BusState, ghost trail: seq<Exchange>,
                    ghost vals: seq<bv16>)
      returns (ok: bool, v: bv16, ghost trail': seq<Exchange>)
      requires Valid() && bus.exchanges == before + trail && bus.Ran(trail, s0)
      requires Requests(trail, bus.serialBound, addr) && |trail| < 6 && reg == REGISTERS[|trail|]
      requires Raws(trail, addr) == Some(vals)
      modifies bus`rxLen, bus`exchanges, bus.rxBuf, bus.mcu
      ensures Valid() && bus.exchanges == before + trail' && bus.Ran(trail', s0)
      ensures Requests(trail', bus.serialBound, addr) && |trail'| == |trail| + 1 && trail'[..|trail|] == trail
      ensures ok ==> Raws(trail', addr) == Some(vals + [v])
      ensures !ok ==> Raws(trail', addr).None?
      ensures !ok || |trail'| == 6 ==> StoppedAtFailure(trail', addr)
    {
      ghost var sb := bus.State();
      ok, v := ReadU16(reg, 0);
      ghost var e := ReadExchange(bus, addr, reg, sb);
      LinkedSnoc(trail, e, s0);
      Extended(before, trail, e, bus.serialBound, addr);
      trail' := trail + [e];
    }

    /** `readS16` as the next of the six reads; `u` is the bit pattern behind `t`. */
    method ReadStepSigned(reg: bv16, ghost before: seq<Exchange>, ghost s0: BusState, ghost trail: seq<Exchange>,
                          ghost vals: seq<bv16>)
      returns (ok: bool, t: int16, ghost u: bv16, ghost trail': seq<Exchange>)
      requires Valid() && bus.exchanges == before + trail && bus.Ran(trail, s0)
      requires Requests(trail, bus.serialBound, addr) && |trail| < 6 && reg == REGISTERS[|trail|]
      requires Raws(trail, addr) == Some(vals)
      modifies bus`rxLen, bus`exchanges, bus.rxBuf, bus.mcu
      ensures Valid() && bus.exchanges == before + trail' && bus.Ran(trail', s0)
      ensures Requests(trail', bus.serialBound, addr) && |trail'| == |trail| + 1 && trail'[..|trail|] == trail
      ensures ok ==> Raws(trail', addr) == Some(vals + [u]) && t == Signed(u)
      ensures !ok ==> Raws(trail', addr).None?
      ensures !ok ==> StoppedAtFailure(trail', addr)
    {
      ghost var sb := bus.State();
      ok, t := ReadS16(reg, 0);
      ghost var e := ReadExchange(bus, addr, reg, sb);
      LinkedSnoc(trail, e, s0);
      u := if ok then RegisterValue(bus.Captured(), addr).value else 0;
      Extended(before, trail, e, bus.serialBound, addr);
      trail' := trail + [e];
    }

    /**
     * The six reads of `readAll`, in register order, stopping at the first
     * that fails; `ok` when all six extracted a reply. `trail` is the bus
     * exchanges made.
     */
    method ReadRaws() returns (ok: bool, humRaw: bv16, tempRaw: int16, pm25Raw: bv16, co2Raw: bv16,
                               tvocRaw: bv16, pm10Raw: bv16, ghost trail: seq<Exchange>)
      requires Valid()
      modifies bus`rxLen, bus`exchanges, bus.rxBuf, bus.mcu
      ensures Valid()
      ensures bus.exchanges == old(bus.exchanges) + trail && bus.Ran(trail, old(bus.State()))
      ensures Requests(trail, bus.serialBound, addr) && StoppedAtFailure(trail, addr)
      ensures ok == Raws(trail, addr).Some?
      ensures ok ==> |trail| == 6 &&
                     var vs := Raws(trail, addr).value;
                     vs[0] == humRaw && Signed(vs[1]) == tempRaw && vs[2] == pm25Raw &&
                     vs[3] == co2Raw && vs[4] == tvocRaw && vs[5] == pm10Raw
    {
      ghost var tr0, s0 := bus.exchanges, bus.State();
      ghost var vals, tempBits := [], 0;
      assert tr0 + [] == tr0;
      assert Raws([], addr) == Some([]);
      tempRaw, pm25Raw, co2Raw, tvocRaw, pm10Raw := 0, 0, 0, 0, 0;

      ok, humRaw, trail := ReadStep(0x0000, tr0, s0, [], vals);
      if !ok {
        return;
      }
      vals := vals + [humRaw];
      ok, tempRaw, tempBits, trail := ReadStepSigned(0x0001, tr0, s0, trail, vals);
      if !ok {
        return;
      }
      vals := vals + [tempBits];
      ok, pm25Raw, trail := ReadStep(0x0004, tr0, s0, trail, vals);
      if !ok {
        return;
      }
      vals := vals + [pm25Raw];
      ok, co2Raw, trail := ReadStep(0x0005, tr0, s0, trail, vals);
      if !ok {
        return;
      }
      vals := vals + [co2Raw];
      ok, tvocRaw, trail := ReadStep(0x0006, tr0, s0, trail, vals);
      if !ok {
        return;
      }
      vals := vals + [tvocRaw];
      ok, pm10Raw, trail := ReadStep(0x0009, tr0, s0, trail, vals);
      SixValues(humRaw, tempBits, pm25Raw, co2Raw, tvocRaw, pm10Raw);
    }

    /**
     * Six reads in register order, stopping at the first that fails; the
     * bounds are checked only once all six succeeded, and `out` is written
     * only when all of them pass. `trail` is the bus exchanges made.
     */
    method ReadAll(out: Data) returns (ok: bool, out': Data, ghost trail: seq<Exchange>)
      requires Valid()
      modifies bus`rxLen, bus`exchanges, bus.rxBuf, bus.mcu
      ensures Valid() && addr == old(addr)
      ensures bus.exchanges == old(bus.exchanges) + trail && bus.Ran(trail, old(bus.State()))
      ensures Requests(trail, bus.serialBound, addr) && StoppedAtFailure(trail, addr)
      ensures Raws(trail, addr).None? ==> !ok && out' == out
      ensures Raws(trail, addr).Some? ==>
                |trail| == 6 &&
                ok == Reading(Raws(trail, addr).value).Some? &&
                out' == if ok then Reading(Raws(trail, addr).value).value else out
    {
      out' := out;
      var humRaw, tempRaw, pm25Raw, co2Raw, tvocRaw, pm10Raw;
      ok, humRaw, tempRaw, pm25Raw, co2Raw, tvocRaw, pm10Raw, trail := ReadRaws();
      if !ok {
        return;
      }
      var hum := humRaw as int as real / 10.0;
      var temp := tempRaw as real / 10.0;
      ok := !(hum < 0.0 || hum > 100.0) && !(temp < -40.0 || temp > 80.0) &&
            !(co2Raw < 400 || co2Raw > 5000) && tvocRaw <= 1000 && pm25Raw <= 300 && pm10Raw <= 300;
      if ok {
        out' := Data(hum, temp, pm25Raw, co2Raw, tvocRaw, pm10Raw);
      }
    }

    /** Writes `newAddress` to register 0x0100; the address changes only when the echo is extracted. */
    method ChangeAddress(newAddress: byte) returns (ok: bool)
      requires Valid()
      modifies this`addr, bus`rxLen, bus`exchanges, bus.rxBuf, bus.mcu
      ensures Valid()
      ensures bus.exchanges ==
              old(bus.exchanges) +
              [Exchange(Sent(bus.serialBound, AddressRequest(old(addr), newAddress)),
                        bus.Captured(), WRITE_TIMEOUT_MS, INTER_BYTE_TIMEOUT_MS, old(bus.State()), bus.State())]
      ensures ok == AddressEcho(bus.Captured(), old(addr), newAddress)
      ensures addr == if ok then newAddress else old(addr)
    {
      ok := WriteAddress(bus, addr, newAddress);
      if ok {
        addr := newAddress;
      }
    }
  }
}
