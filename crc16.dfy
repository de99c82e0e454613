/**
 * The Modbus RTU CRC-16 of section 6.2.2 (Appendix B, "CRC Generation") of the
 * Modbus over Serial Line Specification and Implementation Guide V1.02:
 * register preset to 0xFFFF, each byte XORed into the low half, then eight
 * right shifts with the reflected polynomial 0xA001 XORed in whenever the bit
 * shifted out was 1. In a frame the CRC follows the data, low byte first.
 */
module Crc16 {

  import opened Types

  const CRC_INIT: bv16 := 0xFFFF

  /**
   * One step of the bitwise algorithm, written without a branch: the mask
   * `0 - (crc & 1)` is all ones exactly when the bit shifted out is 1
   * (ShiftOnceCases gives the branching form).
   */
  function ShiftOnce(crc: bv16): bv16 {
    (crc >> 1) ^ ((0 - (crc & 1)) & 0xA001)
  }

  lemma ShiftOnceCases(crc: bv16)
    ensures crc & 1 == 1 ==> ShiftOnce(crc) == (crc >> 1) ^ 0xA001
    ensures crc & 1 != 1 ==> ShiftOnce(crc) == crc >> 1
  {
  }

  /** `n` steps of the bitwise algorithm. */
  function Shifts(crc: bv16, n: nat): bv16 {
    if n == 0 then crc else ShiftOnce(Shifts(crc, n - 1))
  }

  /** The register after one byte has been XORed in and shifted eight times. */
  function UpdateByte(crc: bv16, b: byte): bv16 {
    Shifts(crc ^ (b as bv16), 8)
  }

  /** The register after feeding `data`, first byte first, into a register holding `init`. */
  function CrcFrom(init: bv16, data: seq<byte>): bv16
    decreases |data|
  {
    if data == [] then init
    else UpdateByte(CrcFrom(init, data[..|data| - 1]), data[|data| - 1])
  }

  /** The Modbus CRC of `data`. */
  function Crc16(data: seq<byte>): bv16 {
    CrcFrom(CRC_INIT, data)
  }

  function LowByte(w: bv16): byte { (w & 0xFF) as byte }
  function HighByte(w: bv16): byte { (w >> (8 as bv16)) as byte }

  /** The 16-bit value of two bytes carried low byte first. */
  function LeWord(lo: byte, hi: byte): bv16 {
    (lo as bv16) | ((hi as bv16) << (8 as bv16))
  }

  /** The two CRC bytes that follow `body` on the wire. */
  function CrcTrailer(body: seq<byte>): seq<byte> {
    [LowByte(Crc16(body)), HighByte(Crc16(body))]
  }

  /** `body` followed by its CRC, low byte then high byte. */
  function Seal(body: seq<byte>): (frame: seq<byte>)
    ensures |frame| == |body| + 2 && frame[..|body|] == body
  {
    body + CrcTrailer(body)
  }

  /**
   * The frame check: at least three bytes, and the last two, read low byte
   * first, equal the CRC of the bytes before them.
   */
  function ValidFrame(frame: seq<byte>): bool {
    |frame| >= 3 &&
    LeWord(frame[|frame| - 2], frame[|frame| - 1]) == Crc16(frame[..|frame| - 2])
  }

  /**
   * The CRC of the `len` bytes of `data` from `start` on, computed bit by bit
   * (the source passes the pointer `data + start`).
   */
  method Crc16Modbus(data: array<byte>, start: nat, len: nat) returns (crc: bv16)
    requires start + len <= data.Length
    ensures crc == Crc16(data[start..start + len])
  {
    crc := 0xFFFF;
    for i := 0 to len
      invariant crc == Crc16(data[start..start + i])
    {
      crc := crc ^ (data[start + i] as bv16);
      ghost var fed := crc;
      for b := 0 to 8
        invariant crc == Shifts(fed, b)
      {
        ShiftOnceCases(crc);
        if crc & 0x0001 == 1 {
          crc := (crc >> 1) ^ 0xA001;
        } else {
          crc := crc >> 1;
        }
      }
      assert data[start..start + i + 1][..i] == data[start..start + i];
    }
  }

  /**
   * The frame check on `len` bytes from `start`: false for a null frame or
   * fewer than three bytes, otherwise whether the trailer matches.
   */
  method VerifyCrc16ModbusFrame(frame: array?<byte>, start: nat, len: nat) returns (ok: bool)
    requires frame != null ==> start + len <= frame.Length
    ensures ok == (frame != null && ValidFrame(frame[start..start + len]))
  {
    if frame == null || len < 3 {
      return false;
    }
    var computed := Crc16Modbus(frame, start, len - 2);
    var got := LeWord(frame[start + len - 2], frame[start + len - 1]);
    ghost var f := frame[start..start + len];
    assert f[..len - 2] == frame[start..start + len - 2];
    assert f[len - 2] == frame[start + len - 2] && f[len - 1] == frame[start + len - 1];
    ok := computed == got;
  }

  // ---------------------------------------------------------------------
  // Byte order of the trailer

  lemma LeWordOfBytes(w: bv16)
    ensures LeWord(LowByte(w), HighByte(w)) == w
  {
  }

  /** The only byte pair that reads back as `w` is its low byte then its high byte. */
  lemma LeWordUnique(lo: byte, hi: byte, w: bv16)
    ensures LeWord(lo, hi) == w <==> lo == LowByte(w) && hi == HighByte(w)
  {
    LeWordOfBytes(w);
    LeWordBytes(lo, hi);
  }

  lemma LeWordBytes(lo: byte, hi: byte)
    ensures LowByte(LeWord(lo, hi)) == lo && HighByte(LeWord(lo, hi)) == hi
  {
  }

  // ---------------------------------------------------------------------
  // The CRC is a left fold

  /** Feeding `a` then `b` is feeding `a + b`: the CRC can be computed incrementally. */
  lemma {:induction false} CrcFromConcat(init: bv16, a: seq<byte>, b: seq<byte>)
    ensures CrcFrom(init, a + b) == CrcFrom(CrcFrom(init, a), b)
    decreases |b|
  {
    if b == [] {
      assert a + b == a;
    } else {
      var b' := b[..|b| - 1];
      assert (a + b)[..|a + b| - 1] == a + b';
      assert (a + b)[|a + b| - 1] == b[|b| - 1];
      CrcFromConcat(init, a, b');
    }
  }

  /** The fold, read from the front: the first byte updates the preset register. */
  lemma Crc16FirstByte(b: byte, rest: seq<byte>)
    ensures Crc16([b] + rest) == CrcFrom(UpdateByte(CRC_INIT, b), rest)
  {
    CrcFromConcat(CRC_INIT, [b], rest);
    assert [b][..0] == [];
  }

  // ---------------------------------------------------------------------
  // Sealing and checking

  /** Appending the CRC, low byte first, to at least one byte always passes the check. */
  lemma SealVerifies(body: seq<byte>)
    requires |body| >= 1
    ensures ValidFrame(Seal(body))
  {
    var f := Seal(body);
    assert f[..|f| - 2] == body;
    LeWordOfBytes(Crc16(body));
  }

  /** A frame passes the check exactly when it is its own first bytes, sealed. */
  lemma VerifyIffSealed(frame: seq<byte>)
    ensures ValidFrame(frame) <==>
            |frame| >= 3 && frame == Seal(frame[..|frame| - 2])
  {
    if |frame| >= 3 {
      var body := frame[..|frame| - 2];
      LeWordUnique(frame[|frame| - 2], frame[|frame| - 1], Crc16(body));
      if ValidFrame(frame) {
        assert frame == body + [frame[|frame| - 2], frame[|frame| - 1]];
      }
      if frame == Seal(body) {
        SealVerifies(body);
      }
    }
  }

  // ---------------------------------------------------------------------
  // Error detection: the update is linear over XOR and loses no information

  lemma ShiftOnceXor(x: bv16, y: bv16)
    ensures ShiftOnce(x ^ y) == ShiftOnce(x) ^ ShiftOnce(y)
  {
  }

  lemma ShiftOnceNonZero(x: bv16)
    requires x != 0
    ensures ShiftOnce(x) != 0
  {
  }

  lemma {:induction false} ShiftsXor(x: bv16, y: bv16, n: nat)
    ensures Shifts(x ^ y, n) == Shifts(x, n) ^ Shifts(y, n)
  {
    if n > 0 {
      ShiftsXor(x, y, n - 1);
      ShiftOnceXor(Shifts(x, n - 1), Shifts(y, n - 1));
    }
  }

  lemma {:induction false} ShiftsNonZero(x: bv16, n: nat)
    requires x != 0
    ensures Shifts(x, n) != 0
  {
    if n > 0 {
      ShiftsNonZero(x, n - 1);
      ShiftOnceNonZero(Shifts(x, n - 1));
    }
  }

  // XOR under a name, so that the linearity lemmas below are stated over
  // these terms rather than over bare bit-vector operators.
  function XorWord(a: bv16, b: bv16): bv16 { a ^ b }
  function XorByte(a: byte, b: byte): byte { a ^ b }

  /** `x` is the bytewise XOR of `a` and `b`. */
  predicate IsXor(x: seq<byte>, a: seq<byte>, b: seq<byte>) {
    |x| == |a| == |b| && forall j :: 0 <= j < |x| ==> x[j] == XorByte(a[j], b[j])
  }

  /** A run of `n` zero bytes. */
  function Zeros(n: nat): (r: seq<byte>)
    ensures |r| == n
  {
    seq(n, j => 0 as byte)
  }

  /** `n` bytes, all zero except `mask` at position `k`. */
  function ErrorBlock(n: nat, k: nat, mask: byte): (r: seq<byte>)
    ensures |r| == n
  {
    seq(n, j => if j == k then mask else 0)
  }

  /** The CRC register is linear: the CRC of XORed inputs is the XOR of their CRCs. */
  lemma {:induction false} CrcFromXor(c1: bv16, c2: bv16, d1: seq<byte>, d2: seq<byte>, x: seq<byte>)
    requires IsXor(x, d1, d2)
    ensures CrcFrom(XorWord(c1, c2), x) == XorWord(CrcFrom(c1, d1), CrcFrom(c2, d2))
    decreases |d1|
  {
    if d1 != [] {
      var n := |d1| - 1;
      CrcFromXor(c1, c2, d1[..n], d2[..n], x[..n]);
      UpdateByteXor(CrcFrom(c1, d1[..n]), CrcFrom(c2, d2[..n]), d1[n], d2[n]);
    }
  }

  lemma UpdateByteXor(c1: bv16, c2: bv16, b1: byte, b2: byte)
    ensures UpdateByte(XorWord(c1, c2), XorByte(b1, b2)) == XorWord(UpdateByte(c1, b1), UpdateByte(c2, b2))
  {
    UpdateByteXorBare(c1, c2, b1, b2);
  }

  lemma UpdateByteXorBare(c1: bv16, c2: bv16, b1: byte, b2: byte)
    ensures UpdateByte(c1 ^ c2, b1 ^ b2) == UpdateByte(c1, b1) ^ UpdateByte(c2, b2)
  {
    var x, y := c1 ^ (b1 as bv16), c2 ^ (b2 as bv16);
    assert (c1 ^ c2) ^ ((b1 ^ b2) as bv16) == x ^ y;
    ShiftsXor(x, y, 8);
  }

  /** Zero bytes fed into a non-zero register never clear it. */
  lemma {:induction false} CrcFromZerosNonZero(c: bv16, n: nat)
    requires c != 0
    ensures CrcFrom(c, Zeros(n)) != 0
  {
    if n > 0 {
      assert Zeros(n)[..n - 1] == Zeros(n - 1);
      CrcFromZerosNonZero(c, n - 1);
      ShiftsNonZero(CrcFrom(c, Zeros(n - 1)) ^ 0, 8);
    }
  }

  /** The CRC, from a cleared register, of a block that is zero except for one non-zero byte. */
  lemma ErrorBlockCrcNonZero(n: nat, k: nat, mask: byte)
    requires k < n && mask != 0
    ensures CrcFrom(0, ErrorBlock(n, k, mask)) != 0
  {
    var z := Zeros(k);
    assert ErrorBlock(n, k, mask) == z + [mask] + Zeros(n - k - 1);
    assert CrcFrom(0, z) == 0 by {
      ZerosFromCleared(k);
    }
    assert (z + [mask])[..k] == z;
    assert CrcFrom(0, z + [mask]) == Shifts(0 ^ (mask as bv16), 8);
    ShiftsNonZero(mask as bv16, 8);
    CrcFromConcat(0, z + [mask], Zeros(n - k - 1));
    CrcFromZerosNonZero(CrcFrom(0, z + [mask]), n - k - 1);
  }

  lemma {:induction false} ZerosFromCleared(n: nat)
    ensures CrcFrom(0, Zeros(n)) == 0
  {
    if n > 0 {
      assert Zeros(n)[..n - 1] == Zeros(n - 1);
      ZerosFromCleared(n - 1);
      ShiftsXor(0, 0, 8);
    }
  }

  /** `s` with byte `k` XORed with `mask`. */
  function Corrupt(s: seq<byte>, k: nat, mask: byte): (r: seq<byte>)
    requires k < |s|
    ensures |r| == |s|
  {
    s[k := s[k] ^ mask]
  }

  /**
   * Every corruption confined to one byte of a sealed frame is detected:
   * the corrupted frame fails the check.
   */
  lemma SingleByteErrorDetected(body: seq<byte>, k: nat, mask: byte)
    requires |body| >= 1 && k < |body| + 2 && mask != 0
    ensures !ValidFrame(Corrupt(Seal(body), k, mask))
  {
    var f := Seal(body);
    var g := Corrupt(f, k, mask);
    var n := |body|;
    VerifyIffSealed(g);
    if k < n {
      var body' := g[..n];
      assert body' == Corrupt(body, k, mask);
      assert Crc16(body') != Crc16(body) by {
        var e := ErrorBlock(n, k, mask);
        CorruptIsXor(body, k, mask);
        CrcFromXor(CRC_INIT, 0, body, e, body');
        assert XorWord(CRC_INIT, 0) == CRC_INIT;
        ErrorBlockCrcNonZero(n, k, mask);
      }
      assert g[n..] == CrcTrailer(body);
      TrailerDeterminesCrc(body, body');
      assert Seal(body')[n..] == CrcTrailer(body');
      assert g != Seal(body');
    } else {
      assert g[..n] == body;
      assert g[k] != f[k];
    }
  }

  /** Equal trailers carry equal CRCs. */
  lemma TrailerDeterminesCrc(a: seq<byte>, b: seq<byte>)
    ensures CrcTrailer(a) == CrcTrailer(b) <==> Crc16(a) == Crc16(b)
  {
    LeWordOfBytes(Crc16(a));
    LeWordOfBytes(Crc16(b));
  }

  /** Corrupting one byte XORs an error block into the sequence. */
  lemma CorruptIsXor(s: seq<byte>, k: nat, mask: byte)
    requires k < |s|
    ensures IsXor(Corrupt(s, k, mask), s, ErrorBlock(|s|, k, mask))
  {
    var x, e := Corrupt(s, k, mask), ErrorBlock(|s|, k, mask);
    forall j | 0 <= j < |s|
      ensures x[j] == XorByte(s[j], e[j])
    {
      if j != k {
        assert e[j] == 0;
      }
    }
  }

  /** Corollary: every single flipped bit is detected. */
  lemma SingleBitErrorDetected(body: seq<byte>, k: nat, bit: nat)
    requires |body| >= 1 && k < |body| + 2 && bit < 8
    ensures !ValidFrame(Corrupt(Seal(body), k, (1 as byte) << bit))
  {
    assert (1 as byte) << bit != 0;
    SingleByteErrorDetected(body, k, (1 as byte) << bit);
  }

  /** The eight shifts of one byte update, written out. */
  lemma UpdateByteUnrolled(crc: bv16, b: byte)
    ensures var x := crc ^ (b as bv16);
            UpdateByte(crc, b) == ShiftOnce(ShiftOnce(ShiftOnce(ShiftOnce(
                                  ShiftOnce(ShiftOnce(ShiftOnce(ShiftOnce(x))))))))
  {
    var x := crc ^ (b as bv16);
    assert Shifts(x, 1) == ShiftOnce(x);
    assert Shifts(x, 2) == ShiftOnce(Shifts(x, 1));
    assert Shifts(x, 3) == ShiftOnce(Shifts(x, 2));
    assert Shifts(x, 4) == ShiftOnce(Shifts(x, 3));
    assert Shifts(x, 5) == ShiftOnce(Shifts(x, 4));
    assert Shifts(x, 6) == ShiftOnce(Shifts(x, 5));
    assert Shifts(x, 7) == ShiftOnce(Shifts(x, 6));
    assert Shifts(x, 8) == ShiftOnce(Shifts(x, 7));
  }

  /** A known request and its CRC: read one register at address 0 from slave 1. */
  lemma ReadRequestTestVector()
    ensures Crc16([0x01, 0x03, 0x00, 0x00, 0x00, 0x01]) == 0x0A84
    ensures Seal([0x01, 0x03, 0x00, 0x00, 0x00, 0x01])
         == [0x01, 0x03, 0x00, 0x00, 0x00, 0x01, 0x84, 0x0A]
  {
    var d: seq<byte> := [0x01, 0x03, 0x00, 0x00, 0x00, 0x01];
    assert CrcFrom(CRC_INIT, d[..1]) == 0x807E by {
      assert d[..1][..0] == [];
      UpdateByteUnrolled(CRC_INIT, 0x01);
    }
    assert CrcFrom(CRC_INIT, d[..2]) == 0x2140 by {
      assert d[..2][..1] == d[..1];
      UpdateByteUnrolled(0x807E, 0x03);
    }
    assert CrcFrom(CRC_INIT, d[..3]) == 0xF020 by {
      assert d[..3][..2] == d[..2];
      UpdateByteUnrolled(0x2140, 0x00);
    }
    assert CrcFrom(CRC_INIT, d[..4]) == 0xD8F1 by {
      assert d[..4][..3] == d[..3];
      UpdateByteUnrolled(0xF020, 0x00);
    }
    assert CrcFrom(CRC_INIT, d[..5]) == 0x8419 by {
      assert d[..5][..4] == d[..4];
      UpdateByteUnrolled(0xD8F1, 0x00);
    }
    assert CrcFrom(CRC_INIT, d) == 0x0A84 by {
      assert d[..5] == d[..|d| - 1];
      UpdateByteUnrolled(0x8419, 0x01);
    }
  }
}
