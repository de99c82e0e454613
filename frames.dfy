/**
 * What `extractFixedFrameByPrefix` looks for in a capture: the lowest index
 * at which the caller's prefix matches and a window of the expected length
 * passes the Modbus CRC check.
 */
module Frames {

  import opened Types
  import opened Crc16

  predicate PrefixAt(raw: seq<byte>, prefix: seq<byte>, i: nat) {
    i + |prefix| <= |raw| && raw[i..i + |prefix|] == prefix
  }

  /** A frame of `len` bytes starts at `i`: prefix match and a valid CRC. */
  predicate FrameAt(raw: seq<byte>, prefix: seq<byte>, len: nat, i: nat) {
    |prefix| <= len && i + len <= |raw| && PrefixAt(raw, prefix, i) &&
    ValidFrame(raw[i..i + len])
  }

  /** No frame of this shape starts before index `n`. */
  predicate NoFrameBefore(raw: seq<byte>, prefix: seq<byte>, len: nat, n: nat) {
    forall j :: 0 <= j < n ==> !FrameAt(raw, prefix, len, j)
  }

  /** The argument checks made before any scanning. */
  predicate Admissible(rawLen: nat, prefixLen: nat, len: nat, outMax: nat) {
    prefixLen != 0 && len != 0 && outMax >= len && rawLen >= len && len >= prefixLen
  }

  /** The first frame at or after `from`, if any. */
  function ScanFrom(raw: seq<byte>, prefix: seq<byte>, len: nat, from: nat): (r: Option<nat>)
    ensures r.Some? ==> from <= r.value && FrameAt(raw, prefix, len, r.value)
    ensures r.Some? ==> forall j :: from <= j < r.value ==> !FrameAt(raw, prefix, len, j)
    ensures r.None? ==> forall j :: from <= j ==> !FrameAt(raw, prefix, len, j)
    decreases |raw| + 1 - from
  {
    if from + len > |raw| then None
    else if FrameAt(raw, prefix, len, from) then Some(from)
    else ScanFrom(raw, prefix, len, from + 1)
  }

  /**
   * The index `extractFixedFrameByPrefix` reports, or None when it returns
   * false (pointer arguments aside).
   */
  function Extract(raw: seq<byte>, prefix: seq<byte>, len: nat, outMax: nat): Option<nat> {
    if Admissible(|raw|, |prefix|, len, outMax) then ScanFrom(raw, prefix, len, 0) else None
  }

  /** The extracted window itself. */
  function Reply(raw: seq<byte>, prefix: seq<byte>, len: nat, outMax: nat): (r: Option<seq<byte>>)
    ensures r.Some? ==> |r.value| == len
  {
    match Extract(raw, prefix, len, outMax)
    case Some(i) => Some(raw[i..i + len])
    case None => None
  }

  /**
   * Soundness, leftmost choice and completeness of the extraction, as one
   * statement: a result is a frame, nothing before it is one, and no result
   * means no frame anywhere.
   */
  lemma ExtractSpec(raw: seq<byte>, prefix: seq<byte>, len: nat, outMax: nat)
    ensures Extract(raw, prefix, len, outMax).Some? ==>
              var i := Extract(raw, prefix, len, outMax).value;
              i + len <= |raw| && raw[i..i + |prefix|] == prefix &&
              ValidFrame(raw[i..i + len]) &&
              forall j :: 0 <= j < i ==> !FrameAt(raw, prefix, len, j)
    ensures Extract(raw, prefix, len, outMax).None? <==>
              !Admissible(|raw|, |prefix|, len, outMax) ||
              forall j :: 0 <= j ==> !FrameAt(raw, prefix, len, j)
  {
  }

  /** A prefix match whose window fails the CRC only moves the scan on. */
  lemma BadCrcContinues(raw: seq<byte>, prefix: seq<byte>, len: nat, i: nat)
    requires i + len <= |raw| && PrefixAt(raw, prefix, i) && !ValidFrame(raw[i..i + len])
    ensures ScanFrom(raw, prefix, len, i) == ScanFrom(raw, prefix, len, i + 1)
  {
  }

  /**
   * A valid frame that follows bytes in which no frame starts is found, at
   * the index right after them.
   */
  lemma FrameAfterNoise(noise: seq<byte>, frame: seq<byte>, prefix: seq<byte>, outMax: nat)
    requires ValidFrame(frame) && 0 < |prefix| && prefix <= frame && outMax >= |frame|
    requires NoFrameBefore(noise + frame, prefix, |frame|, |noise|)
    ensures Extract(noise + frame, prefix, |frame|, outMax) == Some(|noise|)
    ensures Reply(noise + frame, prefix, |frame|, outMax) == Some(frame)
  {
    var raw := noise + frame;
    assert raw[|noise|..|noise| + |frame|] == frame;
    assert raw[|noise|..|noise| + |prefix|] == frame[..|prefix|];
    assert FrameAt(raw, prefix, |frame|, |noise|);
  }
}
