/**
 * The Modbus RTU exchange every sensor driver repeats: an 8-byte request for
 * function 0x03, Read Holding Registers (section 6.3 of the Modbus Application
 * Protocol Specification V1.1b3), or function 0x06, Write Single Register
 * (section 6.6), sealed with the CRC and handed to the bus together with the
 * prefix and the length of the reply it expects; register words travel big
 * endian.
 */
module ModbusRtu {

  import opened Types
  import opened Crc16
  import opened RS485
  import Frames

  const READ_HOLDING_REGISTERS: byte := 0x03
  const WRITE_SINGLE_REGISTER: byte := 0x06

  /** The timeouts the drivers pass: 250 ms for reads, 500 ms for writes, 25 ms inter-byte. */
  const READ_TIMEOUT_MS: u32 := 250
  const WRITE_TIMEOUT_MS: u32 := 500
  const INTER_BYTE_TIMEOUT_MS: u32 := 25

  /** Every exchange of `trail` ran with the read timeouts: 250 ms overall, 25 ms between bytes. */
  ghost predicate ReadTimeouts(trail: seq<Exchange>) {
    forall k :: 0 <= k < |trail| ==>
      trail[k].overallMs == READ_TIMEOUT_MS && trail[k].interByteMs == INTER_BYTE_TIMEOUT_MS
  }

  // ---------------------------------------------------------------------
  // Register words

  /** The high byte of a register word. */
  function Hi(w: bv16): byte { (w >> 8) as byte }

  /** The low byte of a register word. */
  function Lo(w: bv16): byte { (w & 0xFF) as byte }

  /** The word two bytes carry, high byte first. */
  function Word(hi: byte, lo: byte): (w: bv16)
    ensures Hi(w) == hi && Lo(w) == lo
  {
    ((hi as bv16) << 8) | (lo as bv16)
  }

  /** Splitting a word and joining the halves gives it back. */
  lemma WordOfHalves(w: bv16)
    ensures Word(Hi(w), Lo(w)) == w
  {
  }

  /**
   * `(int16_t)w`: the 16-bit signed value whose two's-complement bit pattern
   * is `w`; negative exactly when the top bit is set.
   */
  function Signed(w: bv16): (v: int16)
    ensures (if v < 0 then v + 0x1_0000 else v) == w as int
    ensures v < 0 <==> w & 0x8000 != 0
  {
    if w & 0x8000 == 0 then w as int else w as int - 0x1_0000
  }

  /** The words of a payload, two bytes each, high byte first. */
  function BigEndian(ws: seq<bv16>): (p: seq<byte>)
    ensures |p| == 2 * |ws|
  {
    if ws == [] then [] else [Hi(ws[0]), Lo(ws[0])] + BigEndian(ws[1..])
  }

  /** Word `k` of a big-endian payload is its `k`th word. */
  lemma {:induction false} BigEndianWord(ws: seq<bv16>, k: nat)
    requires k < |ws|
    ensures Word(BigEndian(ws)[2 * k], BigEndian(ws)[2 * k + 1]) == ws[k]
    decreases k
  {
    if k == 0 {
      assert BigEndian(ws)[0] == Hi(ws[0]) && BigEndian(ws)[1] == Lo(ws[0]);
      WordOfHalves(ws[0]);
    } else {
      BigEndianWord(ws[1..], k - 1);
      assert BigEndian(ws)[2 * k] == BigEndian(ws[1..])[2 * (k - 1)];
      assert BigEndian(ws)[2 * k + 1] == BigEndian(ws[1..])[2 * (k - 1) + 1];
    }
  }

  // ---------------------------------------------------------------------
  // Requests

  /** The six bytes of a request before its CRC. */
  function RequestBody(addr: byte, code: byte, first: bv16, second: bv16): (body: seq<byte>)
    ensures |body| == 6 && body[0] == addr && body[1] == code
    ensures Word(body[2], body[3]) == first && Word(body[4], body[5]) == second
  {
    [addr, code, Hi(first), Lo(first), Hi(second), Lo(second)]
  }

  /** Function 0x03 for `count` registers from `start`, sealed. */
  function ReadRequest(addr: byte, start: bv16, count: bv16): seq<byte> {
    Seal(RequestBody(addr, READ_HOLDING_REGISTERS, start, count))
  }

  /** Function 0x06 writing `value` to `reg`, sealed. */
  function WriteRequest(addr: byte, reg: bv16, value: bv16): seq<byte> {
    Seal(RequestBody(addr, WRITE_SINGLE_REGISTER, reg, value))
  }

  /**
   * Every request a driver sends is eight bytes that pass the frame check,
   * and a slave reading it back finds the address, the function and both
   * words the driver put in.
   */
  lemma RequestsAreValid(addr: byte, code: byte, first: bv16, second: bv16)
    ensures var f := Seal(RequestBody(addr, code, first, second));
            |f| == 8 && ValidFrame(f) && f[0] == addr && f[1] == code &&
            Word(f[2], f[3]) == first && Word(f[4], f[5]) == second
  {
    SealVerifies(RequestBody(addr, code, first, second));
  }

  /** What the bus records as sent for `frame`: nothing while no UART is bound. */
  function Sent(serialBound: bool, frame: seq<byte>): seq<byte> {
    if serialBound then frame else []
  }

  // ---------------------------------------------------------------------
  // Replies

  /**
   * What one transaction gets back from a capture: nothing when nothing was
   * captured, otherwise the frame extraction finds.
   */
  function Answer(captured: seq<byte>, prefix: seq<byte>, frameLen: nat, rxSize: nat)
    : (r: Option<seq<byte>>)
    ensures r.Some? ==> |r.value| == frameLen
  {
    if captured == [] then None else Frames.Reply(captured, prefix, frameLen, rxSize)
  }

  /** An answer is a CRC-valid frame of the capture that starts with the prefix. */
  lemma AnswerIsFrame(captured: seq<byte>, prefix: seq<byte>, frameLen: nat, rxSize: nat)
    requires Answer(captured, prefix, frameLen, rxSize).Some?
    ensures var f := Answer(captured, prefix, frameLen, rxSize).value;
            captured != [] && |prefix| <= frameLen <= rxSize && f[..|prefix|] == prefix &&
            ValidFrame(f) && f == Seal(f[..frameLen - 2])
  {
    var i := Frames.Extract(captured, prefix, frameLen, rxSize).value;
    assert Frames.FrameAt(captured, prefix, frameLen, i);
    var f := captured[i..i + frameLen];
    assert Answer(captured, prefix, frameLen, rxSize).value == f;
    assert f[..|prefix|] == captured[i..i + |prefix|];
    VerifyIffSealed(f);
  }

  /**
   * The reply taken from a scan of the `n`-byte capture `c`: none when
   * nothing was captured, else the window at the index the scan reports.
   */
  lemma AnswerOfScan(c: seq<byte>, n: nat, scanned: seq<byte>, prefix: seq<byte>, frameLen: nat, rxSize: nat,
                     ok: bool, window: seq<byte>, reply: Option<seq<byte>>)
    requires |c| == n && scanned == prefix
    requires n == 0 ==> !ok
    requires n > 0 ==>
               var r := Frames.Extract(c, scanned, frameLen, rxSize);
               ok == r.Some? && (ok ==> window == c[r.value..r.value + frameLen])
    requires reply == if ok then Some(window) else None
    ensures reply == Answer(c, prefix, frameLen, rxSize)
  {
  }

  /**
   * A reply that follows bytes in which no frame of that shape starts is the
   * answer, provided the receive buffer can hold it.
   */
  lemma AnswerAfterNoise(noise: seq<byte>, reply: seq<byte>, prefix: seq<byte>, rxSize: nat)
    requires ValidFrame(reply) && 0 < |prefix| && prefix <= reply && rxSize >= |reply|
    requires Frames.NoFrameBefore(noise + reply, prefix, |reply|, |noise|)
    ensures Answer(noise + reply, prefix, |reply|, rxSize) == Some(reply)
  {
    Frames.FrameAfterNoise(noise, reply, prefix, rxSize);
  }

  /** A normal 0x03 response: address, function, byte count, payload and CRC. */
  function ReadResponse(addr: byte, byteCount: byte, payload: seq<byte>): seq<byte>
    requires |payload| == byteCount as int
  {
    Seal([addr, READ_HOLDING_REGISTERS, byteCount] + payload)
  }

  /** The reply to a read whose byte count field is `byteCount`: prefix {addr, 0x03, byteCount}. */
  function ReadReply(captured: seq<byte>, addr: byte, byteCount: byte, rxSize: nat): Option<seq<byte>> {
    Answer(captured, [addr, READ_HOLDING_REGISTERS, byteCount], 5 + byteCount as int, rxSize)
  }

  /** The `byteCount` bytes after the three header bytes of a read reply. */
  function PayloadOf(reply: Option<seq<byte>>, byteCount: byte): (p: Option<seq<byte>>)
    requires reply.Some? ==> |reply.value| == 5 + byteCount as int
    ensures p.Some? <==> reply.Some?
    ensures p.Some? ==> |p.value| == byteCount as int && reply.value == reply.value[..3] + p.value + reply.value[3 + byteCount as int..]
  {
    match reply
    case Some(f) => Some(f[3..3 + byteCount as int])
    case None => None
  }

  /** The payload of the read reply in a capture. */
  function ReadPayload(captured: seq<byte>, addr: byte, byteCount: byte, rxSize: nat)
    : (p: Option<seq<byte>>)
    ensures p.Some? ==> |p.value| == byteCount as int
  {
    PayloadOf(ReadReply(captured, addr, byteCount, rxSize), byteCount)
  }

  /** Every accepted read reply is the response of slave `addr` carrying the payload. */
  lemma ReadPayloadSound(captured: seq<byte>, addr: byte, byteCount: byte, rxSize: nat)
    requires ReadPayload(captured, addr, byteCount, rxSize).Some?
    ensures ReadReply(captured, addr, byteCount, rxSize) ==
            Some(ReadResponse(addr, byteCount, ReadPayload(captured, addr, byteCount, rxSize).value))
  {
    var n := 5 + byteCount as int;
    var prefix := [addr, READ_HOLDING_REGISTERS, byteCount];
    AnswerIsFrame(captured, prefix, n, rxSize);
    var f := ReadReply(captured, addr, byteCount, rxSize).value;
    var p := f[3..3 + byteCount as int];
    assert f[..n - 2] == prefix + p by {
      assert f[..n - 2][..3] == f[..3];
    }
  }

  /** The response of slave `addr`, after noise in which no reply starts, yields its payload. */
  lemma ReadPayloadComplete(noise: seq<byte>, addr: byte, byteCount: byte, payload: seq<byte>, rxSize: nat)
    requires |payload| == byteCount as int && rxSize >= 5 + |payload|
    requires Frames.NoFrameBefore(noise + ReadResponse(addr, byteCount, payload),
                                    [addr, READ_HOLDING_REGISTERS, byteCount], 5 + |payload|, |noise|)
    ensures ReadPayload(noise + ReadResponse(addr, byteCount, payload), addr, byteCount, rxSize) == Some(payload)
  {
    var prefix := [addr, READ_HOLDING_REGISTERS, byteCount];
    var r := ReadResponse(addr, byteCount, payload);
    SealVerifies(prefix + payload);
    assert r[..3] == prefix;
    AnswerAfterNoise(noise, r, prefix, rxSize);
    assert r[3..3 + |payload|] == payload;
  }

  /** The value of a one-register read: prefix {addr, 0x03, 0x02}, 7 bytes, `rx[3] << 8 | rx[4]`. */
  function RegisterValue(captured: seq<byte>, addr: byte): Option<bv16> {
    match ReadPayload(captured, addr, 2, 7)
    case Some(p) => Some(Word(p[0], p[1]))
    case None => None
  }

  /** An accepted register value is what the response of slave `addr` carried. */
  lemma RegisterValueSound(captured: seq<byte>, addr: byte)
    requires RegisterValue(captured, addr).Some?
    ensures ReadReply(captured, addr, 2, 7) ==
            Some(ReadResponse(addr, 2, BigEndian([RegisterValue(captured, addr).value])))
  {
    ReadPayloadSound(captured, addr, 2, 7);
    var p := ReadPayload(captured, addr, 2, 7).value;
    assert BigEndian([Word(p[0], p[1])]) == p;
  }

  /** The response carrying `v`, after noise in which no reply starts, reads as `v`. */
  lemma RegisterValueComplete(noise: seq<byte>, addr: byte, v: bv16)
    requires Frames.NoFrameBefore(noise + ReadResponse(addr, 2, BigEndian([v])),
                                    [addr, READ_HOLDING_REGISTERS, 2], 7, |noise|)
    ensures RegisterValue(noise + ReadResponse(addr, 2, BigEndian([v])), addr) == Some(v)
  {
    ReadPayloadComplete(noise, addr, 2, BigEndian([v]), 7);
    BigEndianWord([v], 0);
  }

  /** The response carrying `v`, with nothing before it, reads as `v`. */
  lemma CleanRegisterValue(addr: byte, v: bv16)
    ensures RegisterValue(ReadResponse(addr, 2, BigEndian([v])), addr) == Some(v)
  {
    assert [] + ReadResponse(addr, 2, BigEndian([v])) == ReadResponse(addr, 2, BigEndian([v]));
    RegisterValueComplete([], addr, v);
  }

  /**
   * The echo a write accepts: a CRC-valid 8-byte frame that begins with the
   * first `echoLen` bytes of the request.
   */
  function WriteEcho(captured: seq<byte>, addr: byte, reg: bv16, value: bv16, echoLen: nat): Option<seq<byte>>
    requires echoLen <= 6
  {
    Answer(captured, RequestBody(addr, WRITE_SINGLE_REGISTER, reg, value)[..echoLen], 8, 8)
  }

  /** The normal response to function 0x06 is the request itself, and it is accepted. */
  lemma WriteEchoComplete(noise: seq<byte>, addr: byte, reg: bv16, value: bv16, echoLen: nat)
    requires 0 < echoLen <= 6
    requires Frames.NoFrameBefore(noise + WriteRequest(addr, reg, value),
                                    RequestBody(addr, WRITE_SINGLE_REGISTER, reg, value)[..echoLen], 8, |noise|)
    ensures WriteEcho(noise + WriteRequest(addr, reg, value), addr, reg, value, echoLen) ==
            Some(WriteRequest(addr, reg, value))
  {
    var body := RequestBody(addr, WRITE_SINGLE_REGISTER, reg, value);
    SealVerifies(body);
    assert body[..echoLen] <= WriteRequest(addr, reg, value);
    AnswerAfterNoise(noise, WriteRequest(addr, reg, value), body[..echoLen], 8);
  }

  /**
   * With a 2-byte prefix, any CRC-valid 8-byte frame from the slave with
   * function 0x06 is taken as the echo, whatever register and value it names.
   */
  lemma ShortEchoIgnoresPayload(addr: byte, reg: bv16, value: bv16, other: seq<byte>)
    requires |other| == 4
    ensures WriteEcho(Seal([addr, WRITE_SINGLE_REGISTER] + other), addr, reg, value, 2) ==
            Some(Seal([addr, WRITE_SINGLE_REGISTER] + other))
  {
    var f := Seal([addr, WRITE_SINGLE_REGISTER] + other);
    SealVerifies([addr, WRITE_SINGLE_REGISTER] + other);
    var prefix := RequestBody(addr, WRITE_SINGLE_REGISTER, reg, value)[..2];
    assert prefix == [addr, WRITE_SINGLE_REGISTER];
    AnswerAfterNoise([], f, prefix, 8);
    assert [] + f == f;
  }

  /** The register `changeAddress` writes the new slave address to. */
  const ADDRESS_REGISTER: bv16 := 0x0100

  /** `{addr, 0x06, 0x01, 0x00, 0x00, newAddress, crc}`. */
  function AddressRequest(addr: byte, newAddress: byte): seq<byte> {
    WriteRequest(addr, ADDRESS_REGISTER, newAddress as bv16)
  }

  lemma AddressRequestBytes(addr: byte, newAddress: byte)
    ensures AddressRequest(addr, newAddress)[..6] == [addr, 0x06, 0x01, 0x00, 0x00, newAddress]
  {
    assert Hi(newAddress as bv16) == 0 && Lo(newAddress as bv16) == newAddress;
  }

  /** `changeAddress` succeeds when an 8-byte CRC-valid frame starting {addr, 0x06} is extracted. */
  function AddressEcho(captured: seq<byte>, addr: byte, newAddress: byte): bool {
    WriteEcho(captured, addr, ADDRESS_REGISTER, newAddress as bv16, 2).Some?
  }

  // ---------------------------------------------------------------------
  // The exchange

  /** An 8-byte request: the six body bytes, then their CRC, low byte first. */
  method BuildRequest(body: seq<byte>) returns (tx: array<byte>)
    requires |body| == 6
    ensures fresh(tx) && tx[..] == Seal(body)
  {
    tx := new byte[8];
    for k := 0 to 6
      invariant tx[..k] == body[..k]
    {
      tx[k] := body[k];
      assert tx[..k + 1] == tx[..k] + [tx[k]];
    }
    var crc := Crc16Modbus(tx, 0, 6);
    assert tx[0..6] == body;
    tx[6] := LowByte(crc);
    tx[7] := HighByte(crc);
    assert tx[..] == body + [LowByte(crc), HighByte(crc)];
  }

  /**
   * The request-prefix-reply pattern of every driver: seal `body`, hand it
   * to the bus with the reply prefix, the reply length and a receive buffer
   * of `rxSize` bytes, and return the reply when one was extracted.
   */
  method Transact(bus: RS485Bus, body: seq<byte>, prefix: seq<byte>, frameLen: nat, rxSize: nat,
                  overallTimeoutMs: u32)
    returns (reply: Option<seq<byte>>)
    requires bus.Valid() && |body| == 6
    modifies bus`rxLen, bus`exchanges, bus.rxBuf, bus.mcu
    ensures bus.Valid()
    ensures bus.exchanges ==
            old(bus.exchanges) +
            [Exchange(Sent(bus.serialBound, Seal(body)),
                      bus.Captured(), overallTimeoutMs, INTER_BYTE_TIMEOUT_MS, old(bus.State()), bus.State())]
    ensures reply == Answer(bus.Captured(), prefix, frameLen, rxSize)
  {
    var tx := BuildRequest(body);
    var pre := new byte[|prefix|](k requires 0 <= k < |prefix| => prefix[k]);
    var rx := new byte[rxSize];
    assert pre[..|prefix|] == prefix && tx[..8] == Seal(body) && pre != bus.rxBuf;
    reply := TransactWith(bus, tx, body, pre, prefix, rx, frameLen, overallTimeoutMs);
  }

  /** `Transact` once the request, the prefix and the receive buffer are built. */
  method TransactWith(bus: RS485Bus, tx: array<byte>, body: seq<byte>, pre: array<byte>, prefix: seq<byte>,
                      rx: array<byte>, frameLen: nat, overallTimeoutMs: u32)
    returns (reply: Option<seq<byte>>)
    requires bus.Valid() && tx.Length == 8 && |body| == 6 && tx[..8] == Seal(body)
    requires |prefix| <= pre.Length && pre[..|prefix|] == prefix && pre != bus.rxBuf && rx != bus.rxBuf && tx != bus.rxBuf
    modifies bus`rxLen, bus`exchanges, bus.rxBuf, bus.mcu, rx
    ensures bus.Valid()
    ensures bus.exchanges ==
            old(bus.exchanges) +
            [Exchange(Sent(bus.serialBound, Seal(body)),
                      bus.Captured(), overallTimeoutMs, INTER_BYTE_TIMEOUT_MS, old(bus.State()), bus.State())]
    ensures reply == Answer(bus.Captured(), prefix, frameLen, rx.Length)
  {
    var ok, _, sent, _, scanned, _ := bus.TransferAndExtractFixedFrame(tx, 8, pre, |prefix|, frameLen, rx, rx.Length,
                                                                     overallTimeoutMs, INTER_BYTE_TIMEOUT_MS);
    assert sent == Sent(bus.serialBound, Seal(body)) && scanned == prefix;
    ghost var window := if ok then rx[..frameLen] else [];
    reply := if ok then Some(rx[..frameLen]) else None;
    AnswerOfScan(bus.Captured(), bus.rxLen, scanned, prefix, frameLen, rx.Length, ok, window, reply);
  }

  /** The one-register read the drivers inline: function 0x03, count 1, a 7-byte reply. */
  method ReadRegister(bus: RS485Bus, addr: byte, reg: bv16) returns (value: Option<bv16>)
    requires bus.Valid()
    modifies bus`rxLen, bus`exchanges, bus.rxBuf, bus.mcu
    ensures bus.Valid()
    ensures bus.exchanges ==
            old(bus.exchanges) +
            [Exchange(Sent(bus.serialBound, ReadRequest(addr, reg, 1)),
                      bus.Captured(), READ_TIMEOUT_MS, INTER_BYTE_TIMEOUT_MS, old(bus.State()), bus.State())]
    ensures value == RegisterValue(bus.Captured(), addr)
  {
    var reply := Transact(bus, RequestBody(addr, READ_HOLDING_REGISTERS, reg, 1),
                          [addr, READ_HOLDING_REGISTERS, 2], 7, 7, READ_TIMEOUT_MS);
    value := if reply.Some? then Some(Word(reply.value[3], reply.value[4])) else None;
  }

  /**
   * A function 0x03 read of `count` registers whose reply must start with
   * [addr, 0x03, byteCount] and be 5 + byteCount bytes long; the payload is
   * what follows the three header bytes.
   */
  method ReadBlock(bus: RS485Bus, addr: byte, start: bv16, count: bv16, byteCount: byte, rxSize: nat)
    returns (payload: Option<seq<byte>>)
    requires bus.Valid()
    modifies bus`rxLen, bus`exchanges, bus.rxBuf, bus.mcu
    ensures bus.Valid()
    ensures bus.exchanges ==
            old(bus.exchanges) +
            [Exchange(Sent(bus.serialBound, ReadRequest(addr, start, count)),
                      bus.Captured(), READ_TIMEOUT_MS, INTER_BYTE_TIMEOUT_MS, old(bus.State()), bus.State())]
    ensures payload == ReadPayload(bus.Captured(), addr, byteCount, rxSize)
  {
    var reply := Transact(bus, RequestBody(addr, READ_HOLDING_REGISTERS, start, count),
                          [addr, READ_HOLDING_REGISTERS, byteCount], 5 + byteCount as int, rxSize, READ_TIMEOUT_MS);
    payload := PayloadOf(reply, byteCount);
  }

  /**
   * The single-register write the drivers inline: function 0x06, an 8-byte
   * reply that must start with the first `echoLen` request bytes.
   */
  method WriteRegister(bus: RS485Bus, addr: byte, reg: bv16, value: bv16, echoLen: nat) returns (ok: bool)
    requires bus.Valid() && echoLen <= 6
    modifies bus`rxLen, bus`exchanges, bus.rxBuf, bus.mcu
    ensures bus.Valid()
    ensures bus.exchanges ==
            old(bus.exchanges) +
            [Exchange(Sent(bus.serialBound, WriteRequest(addr, reg, value)),
                      bus.Captured(), WRITE_TIMEOUT_MS, INTER_BYTE_TIMEOUT_MS, old(bus.State()), bus.State())]
    ensures ok == WriteEcho(bus.Captured(), addr, reg, value, echoLen).Some?
  {
    var body := RequestBody(addr, WRITE_SINGLE_REGISTER, reg, value);
    var reply := Transact(bus, body, body[..echoLen], 8, 8, WRITE_TIMEOUT_MS);
    ok := reply.Some?;
  }

  /** The `changeAddress` transaction the drivers share: write register 0x0100, 2-byte echo prefix. */
  method WriteAddress(bus: RS485Bus, addr: byte, newAddress: byte) returns (ok: bool)
    requires bus.Valid()
    modifies bus`rxLen, bus`exchanges, bus.rxBuf, bus.mcu
    ensures bus.Valid()
    ensures bus.exchanges ==
            old(bus.exchanges) +
            [Exchange(Sent(bus.serialBound, AddressRequest(addr, newAddress)),
                      bus.Captured(), WRITE_TIMEOUT_MS, INTER_BYTE_TIMEOUT_MS, old(bus.State()), bus.State())]
    ensures ok == AddressEcho(bus.Captured(), addr, newAddress)
  {
    ok := WriteRegister(bus, addr, ADDRESS_REGISTER, newAddress as bv16, 2);
  }
}
