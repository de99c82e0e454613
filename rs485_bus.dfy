/**
 * The transport class `RS485Bus`: half-duplex transfers over one UART, a
 * fixed-capacity capture buffer, and prefix/CRC frame extraction from it.
 */
module RS485 {

  import opened Types
  import opened Hardware
  import opened Crc16
  import Frames
  import opened Capture

  // ---------------------------------------------------------------------
  // Build configuration and direction control

  /** The build options that fix the capture capacity. */
  datatype BuildConfig = BuildConfig(archAvr: bool, bufferSizeOverride: Option<nat>)
  {
    ghost predicate Valid() {
      bufferSizeOverride.Some? ==> bufferSizeOverride.value > 0
    }
  }

  /** The capture capacity: the build override if given, else 256 on AVR and 512 elsewhere. */
  function RxBufferSize(cfg: BuildConfig): (n: nat)
    requires cfg.Valid()
    ensures n > 0
  {
    match cfg.bufferSizeOverride
    case Some(size) => size
    case None => if cfg.archAvr then 256 else 512
  }

  /** The DE/RE line: `pin` -1 means an auto-direction transceiver. */
  datatype DirectionControl = DirectionControl(pin: int8, activeHighTX: bool)
  {
    /** The level `setTX(tx)` drives: HIGH exactly when `tx` agrees with `activeHighTX`. */
    function Level(tx: bool): (high: bool)
      ensures high <==> (tx == activeHighTX)
    {
      if activeHighTX then tx else !tx
    }

    /** The pin events `setTX(tx)` produces. */
    function SwitchEvents(tx: bool): seq<Event> {
      if pin < 0 then [] else [PinWrite(pin as int, Level(tx))]
    }

    /** Makes the pin an output driven to the receive level; nothing when disabled. */
    method Begin(mcu: Mcu)
      modifies mcu`outputs, mcu`level, mcu`trace
      ensures pin >= 0 ==> mcu.outputs == old(mcu.outputs) + {pin as int}
      ensures pin >= 0 ==> mcu.level == old(mcu.level)[pin as int := Level(false)]
      ensures pin >= 0 ==>
                mcu.trace == old(mcu.trace) + [PinModeOutput(pin as int), PinWrite(pin as int, Level(false))]
      ensures pin < 0 ==>
                mcu.outputs == old(mcu.outputs) && mcu.level == old(mcu.level) &&
                mcu.trace == old(mcu.trace)
    {
      if pin >= 0 {
        mcu.PinMode(pin as int);
        mcu.DigitalWrite(pin as int, !activeHighTX);
      }
    }

    /** Drives the pin to the TX or RX level; a no-op when disabled. */
    method SetTX(mcu: Mcu, tx: bool)
      modifies mcu`level, mcu`trace
      ensures pin >= 0 ==> mcu.level == old(mcu.level)[pin as int := Level(tx)]
      ensures pin < 0 ==> mcu.level == old(mcu.level)
      ensures mcu.trace == old(mcu.trace) + SwitchEvents(tx)
    {
      if pin < 0 {
        return;
      }
      if activeHighTX {
        mcu.DigitalWrite(pin as int, tx);
      } else {
        mcu.DigitalWrite(pin as int, !tx);
      }
    }
  }

  /** The TX and RX levels of an enabled line are different. */
  lemma LevelsDiffer(d: DirectionControl)
    ensures d.Level(true) != d.Level(false)
    ensures d.Level(false) == !d.activeHighTX
  {
  }

  // ---------------------------------------------------------------------
  // Event shapes of one transfer

  /** The write events for `bytes`, in order. */
  function Writes(bytes: seq<byte>): (ev: seq<Event>)
    ensures |ev| == |bytes|
    decreases |bytes|
  {
    if bytes == [] then [] else Writes(bytes[..|bytes| - 1]) + [SerialWrite(bytes[|bytes| - 1])]
  }

  /** A guard wait of `us` microseconds, skipped when zero. */
  function GuardWait(us: nat): seq<Event> {
    if us == 0 then [] else [WaitUs(us)]
  }

  /** What happens on the line while the direction is TX. */
  function TxBody(bytes: seq<byte>, preUs: nat, postUs: nat): seq<Event> {
    GuardWait(preUs) + Writes(bytes) + [SerialFlush] + GuardWait(postUs)
  }

  /** The events of the transmit half of `transferRaw`. */
  function TxPhase(d: DirectionControl, bytes: seq<byte>, preUs: nat, postUs: nat): seq<Event> {
    d.SwitchEvents(true) + TxBody(bytes, preUs, postUs) + d.SwitchEvents(false)
  }

  /** `n` one-millisecond waits: the time-taking events of draining and polling. */
  function Waits(n: nat): (ev: seq<Event>)
    ensures |ev| == n
  {
    if n == 0 then [] else Waits(n - 1) + [WaitMs(1)]
  }

  /** The bytes of the write events, in order. */
  function Written(ev: seq<Event>): seq<byte>
    decreases |ev|
  {
    if ev == [] then []
    else Written(ev[..|ev| - 1]) + (if ev[|ev| - 1].SerialWrite? then [ev[|ev| - 1].b] else [])
  }

  lemma {:induction false} WrittenAppend(a: seq<Event>, b: seq<Event>)
    ensures Written(a + b) == Written(a) + Written(b)
    decreases |b|
  {
    if b == [] {
      assert a + b == a;
    } else {
      var b' := b[..|b| - 1];
      assert a + b == (a + b') + [b[|b| - 1]];
      assert (a + b)[..|a + b| - 1] == a + b';
      WrittenAppend(a, b');
    }
  }

  lemma {:induction false} WrittenWrites(bytes: seq<byte>)
    ensures Written(Writes(bytes)) == bytes
    decreases |bytes|
  {
    if bytes != [] {
      var init := bytes[..|bytes| - 1];
      WrittenWrites(init);
      WrittenAppend(Writes(init), [SerialWrite(bytes[|bytes| - 1])]);
      assert [SerialWrite(bytes[|bytes| - 1])][..0] == [];
    }
  }

  lemma {:induction false} WritesAreWrites(bytes: seq<byte>)
    ensures forall k :: 0 <= k < |Writes(bytes)| ==> Writes(bytes)[k].SerialWrite?
    decreases |bytes|
  {
    if bytes != [] {
      WritesAreWrites(bytes[..|bytes| - 1]);
    }
  }

  lemma NoWrites(ev: seq<Event>)
    requires forall k :: 0 <= k < |ev| ==> !ev[k].SerialWrite?
    ensures Written(ev) == []
    decreases |ev|
  {
    if ev != [] {
      NoWrites(ev[..|ev| - 1]);
    }
  }

  lemma TxBodyWritten(bytes: seq<byte>, preUs: nat, postUs: nat)
    ensures Written(TxBody(bytes, preUs, postUs)) == bytes
  {
    var pre, w, post := GuardWait(preUs), Writes(bytes), GuardWait(postUs);
    assert Written(pre) == [] && Written([SerialFlush]) == [] && Written(post) == [] by {
      NoWrites(pre);
      NoWrites([SerialFlush]);
      NoWrites(post);
    }
    assert Written(pre + w) == bytes by {
      WrittenAppend(pre, w);
      WrittenWrites(bytes);
    }
    WrittenAppend(pre + w, [SerialFlush]);
    WrittenAppend(pre + w + [SerialFlush], post);
  }

  lemma TxBodyNoPinWrite(bytes: seq<byte>, preUs: nat, postUs: nat)
    ensures NoPinWrite(TxBody(bytes, preUs, postUs))
  {
    var pre, w, post := GuardWait(preUs), Writes(bytes), GuardWait(postUs);
    WritesAreWrites(bytes);
    assert NoPinWrite(w);
    NoPinWriteAppend(pre, w);
    NoPinWriteAppend(pre + w, [SerialFlush]);
    NoPinWriteAppend(pre + w + [SerialFlush], post);
  }

  /**
   * Direction bracketing of the transmit half: with a DE/RE pin, the pin goes
   * to the TX level before anything else and back to the RX level after
   * everything else, and it does not change in between; the bytes written
   * are exactly the request.
   */
  lemma TxPhaseBrackets(d: DirectionControl, bytes: seq<byte>, preUs: nat, postUs: nat)
    ensures Written(TxPhase(d, bytes, preUs, postUs)) == bytes
    ensures NoPinWrite(TxBody(bytes, preUs, postUs))
    ensures d.pin >= 0 ==>
              TxPhase(d, bytes, preUs, postUs) ==
              [PinWrite(d.pin as int, d.Level(true))] + TxBody(bytes, preUs, postUs) +
              [PinWrite(d.pin as int, d.Level(false))]
    ensures d.pin < 0 ==> TxPhase(d, bytes, preUs, postUs) == TxBody(bytes, preUs, postUs)
  {
    var a, body, b := d.SwitchEvents(true), TxBody(bytes, preUs, postUs), d.SwitchEvents(false);
    assert Written(a) == [] && Written(b) == [] by {
      NoWrites(a);
      NoWrites(b);
    }
    assert Written(a + body) == bytes by {
      WrittenAppend(a, body);
      TxBodyWritten(bytes, preUs, postUs);
    }
    WrittenAppend(a + body, b);
    TxBodyNoPinWrite(bytes, preUs, postUs);
    if d.pin < 0 {
      assert a + body + b == body;
    }
  }

  predicate NoPinWrite(ev: seq<Event>) {
    forall k :: 0 <= k < |ev| ==> !ev[k].PinWrite?
  }

  lemma NoPinWriteAppend(a: seq<Event>, b: seq<Event>)
    requires NoPinWrite(a) && NoPinWrite(b)
    ensures NoPinWrite(a + b)
  {
  }

  lemma LandBatch(drained: seq<byte>, fifo: seq<byte>, batch: seq<byte>, start: seq<byte>, landed: seq<seq<byte>>)
    requires drained + fifo == start + Flatten(landed)
    ensures drained + (fifo + batch) == start + Flatten(landed + [batch])
  {
    FlattenSnoc(landed, batch);
    Assoc(drained, fifo, batch);
    Assoc(start, Flatten(landed), batch);
  }

  /** The transmit events, accumulated step by step. */
  lemma TxPhaseSteps(d: DirectionControl, bytes: seq<byte>, preUs: nat, postUs: nat,
                     t0: seq<Event>, t1: seq<Event>, t2: seq<Event>, t3: seq<Event>, t4: seq<Event>,
                     t5: seq<Event>)
    requires t1 == t0 + d.SwitchEvents(true) && t2 == t1 + GuardWait(preUs)
    requires t3 == t2 + Writes(bytes) + [SerialFlush] && t4 == t3 + GuardWait(postUs)
    requires t5 == t4 + d.SwitchEvents(false)
    ensures t5 == t0 + TxPhase(d, bytes, preUs, postUs)
  {
    var a, pre, w, post, b := d.SwitchEvents(true), GuardWait(preUs), Writes(bytes), GuardWait(postUs),
                              d.SwitchEvents(false);
    assert t3 == t1 + (pre + w + [SerialFlush]) by {
      Assoc(t1, pre, w);
      Assoc(t1, pre + w, [SerialFlush]);
    }
    assert t4 == t1 + TxBody(bytes, preUs, postUs) by {
      Assoc(t1, pre + w + [SerialFlush], post);
    }
    assert t5 == t0 + (a + TxBody(bytes, preUs, postUs)) + b by {
      Assoc(t0, a, TxBody(bytes, preUs, postUs));
    }
    Assoc(t0, a + TxBody(bytes, preUs, postUs), b);
  }

  lemma {:induction false} WaitsAppend(a: nat, b: nat)
    ensures Waits(a) + Waits(b) == Waits(a + b)
    decreases b
  {
    if b == 0 {
      assert Waits(a) + [] == Waits(a);
    } else {
      WaitsAppend(a, b - 1);
      Assoc(Waits(a), Waits(b - 1), [WaitMs(1)]);
    }
  }

  lemma OverwriteLevel(m: map<int, bool>, pin: int, first: bool, second: bool)
    ensures m[pin := first][pin := second] == m[pin := second]
  {
  }

  // ---------------------------------------------------------------------
  // The transport

  /**
   * One `transferRaw` call: the request handed over, the bytes captured, the
   * overall and inter-byte timeouts the capture ran with, and the bus state
   * before and after the call.
   */
  datatype Exchange = Exchange(request: seq<byte>, captured: seq<byte>, overallMs: u32, interByteMs: u32,
                               before: BusState, after: BusState)

  /** Ghost record of one transfer cycle. */
  datatype Cycle = Cycle(
    drained: seq<byte>,          // stale bytes discarded by the input flush
    landed: seq<seq<byte>>,      // arrival batches that landed during the flush
    heard: seq<seq<byte>>,       // arrival batches that landed during capture
    waited: nat,                 // 1 ms waits taken during capture with nothing queued
    stop: RxStop,
    rxStart: nat,                // the clock reading that starts the capture
    lastByte: nat,               // the clock reading after the last batch was taken
    trail: seq<Rx>)              // the capture loop's states, turn by turn

  /**
   * The parts of the bus a transfer cycle changes (the UART and clock, the
   * pins, the capture buffer) and the direction control and delays it runs with.
   */
  datatype BusState = BusState(wire: Port, level: map<int, bool>, trace: seq<Event>, buffer: seq<byte>, rxLen: nat,
                               dir: DirectionControl, preUs: u16, postUs: u16)
  {
    /** The capture, `buffer[0..rxLen)`. */
    function Held(): seq<byte>
      requires rxLen <= |buffer|
    {
      buffer[..rxLen]
    }
  }

  /**
   * What one `transferRaw` cycle with a bound UART and something to send
   * leaves behind, from bus state `s0` to `s`: the stale input flushed in
   * 1 ms steps, the request sent between the two direction switches, the
   * capture timed from the clock reading after the send, every byte that
   * arrived meanwhile captured or still queued, the stop reason tied to
   * the clock, and the capture being the reference loop run from the port
   * the flush left.
   */
  ghost predicate Transferred(s0: BusState, s: BusState, d: DirectionControl, preUs: nat, postUs: nat,
                              sent: seq<byte>, cycle: Cycle, overallMs: nat, gapMs: nat)
  {
    && s.rxLen <= |s.buffer|
    && (forall j :: s.rxLen <= j < |s.buffer| ==> s.buffer[j] == 0)
    && cycle.drained == s0.wire.fifo + Flatten(cycle.landed)
    && s0.wire.arrivals == cycle.landed + cycle.heard + s.wire.arrivals
    && s.Held() + s.wire.fifo == Flatten(cycle.heard)
    && (s.wire.fifo != [] ==> s.rxLen == |s.buffer|)
    && s.trace == s0.trace + Waits(|cycle.drained|) + TxPhase(d, sent, preUs, postUs) + Waits(cycle.waited)
    && (d.pin >= 0 ==> s.level == s0.level[d.pin as int := d.Level(false)])
    && (d.pin < 0 ==> s.level == s0.level)
    && cycle.rxStart == s0.wire.now + |cycle.drained|
    && cycle.rxStart + cycle.stop.elapsed <= s.wire.now
    && (cycle.stop.Timeout? ==> cycle.stop.elapsed >= overallMs)
    && (cycle.stop.Full? ==> cycle.stop.elapsed < overallMs && s.rxLen == |s.buffer|)
    && (cycle.stop.Silence? ==>
          && cycle.stop.elapsed < overallMs && s.rxLen > 0 && s.wire.fifo == [] && cycle.stop.gap >= gapMs
          && cycle.rxStart + cycle.stop.elapsed <= cycle.lastByte + cycle.stop.gap <= s.wire.now)
    && (s.rxLen > 0 ==> cycle.rxStart <= cycle.lastByte <= s.wire.now)
    && (s.rxLen == 0 ==> cycle.stop.Timeout?)
    && Captures(Port([], cycle.heard + s.wire.arrivals, cycle.rxStart, s0.wire.drift), cycle.trail,
                RxEnd(Rx(s.wire, s.Held(), s.rxLen > 0, cycle.lastByte, cycle.waited), cycle.stop),
                overallMs, gapMs, |s.buffer|)
  }

  /**
   * The exchange `e` is what a `transferRaw` call did: its capture is what
   * the bus held afterwards; with nothing sent (no UART bound, nothing to
   * send) only the capture length was reset to 0; otherwise the bus went
   * from `e.before` to `e.after` through one transfer cycle of the request,
   * with the direction control and delays of `e.before`.
   */
  ghost predicate Made(e: Exchange) {
    && e.after.rxLen <= |e.after.buffer| && e.captured == e.after.Held()
    && (e.request == [] ==> e.after == e.before.(rxLen := 0))
    && (e.request != [] ==>
          exists c :: Transferred(e.before, e.after, e.before.dir, e.before.preUs, e.before.postUs,
                                  e.request, c, e.overallMs, e.interByteMs))
  }

  /** A transfer cycle of a nonempty request, with the capture it left, is an exchange made. */
  lemma MadeByCycle(e: Exchange, c: Cycle)
    requires Transferred(e.before, e.after, e.before.dir, e.before.preUs, e.before.postUs,
                         e.request, c, e.overallMs, e.interByteMs)
    requires e.request != [] && e.captured == e.after.Held()
    ensures Made(e)
  {
  }

  /** Every exchange of the history `h` was made. */
  ghost predicate Logged(h: seq<Exchange>) {
    forall i :: 0 <= i < |h| ==> Made(h[i])
  }

  /** Logging an exchange made keeps the history made. */
  lemma LoggedSnoc(h: seq<Exchange>, e: Exchange)
    requires Logged(h) && Made(e)
    ensures Logged(h + [e])
  {
    assert forall i :: 0 <= i < |h| ==> (h + [e])[i] == h[i];
  }

  /**
   * The exchanges of `trail` ran one after another, each starting in the
   * state the one before it left, from bus state `s0` to `s`.
   */
  ghost predicate Linked(trail: seq<Exchange>, s0: BusState, s: BusState)
    decreases |trail|
  {
    if trail == [] then s == s0
    else
      var e := trail[|trail| - 1];
      Linked(trail[..|trail| - 1], s0, e.before) && e.after == s
  }

  /** Two chains, the second starting where the first ended, make one. */
  lemma {:induction false} LinkedAppend(a: seq<Exchange>, b: seq<Exchange>, s0: BusState, s1: BusState, s: BusState)
    requires Linked(a, s0, s1) && Linked(b, s1, s)
    ensures Linked(a + b, s0, s)
    decreases |b|
  {
    if b == [] {
      assert a + b == a;
    } else {
      var n := |b| - 1;
      LinkedAppend(a, b[..n], s0, s1, b[n].before);
      assert (a + b)[..|a + b| - 1] == a + b[..n];
    }
  }

  /** One more exchange starting where a chain ended extends it. */
  lemma LinkedSnoc(trail: seq<Exchange>, e: Exchange, s0: BusState)
    requires Linked(trail, s0, e.before)
    ensures Linked(trail + [e], s0, e.after)
  {
    assert (trail + [e])[..|trail|] == trail;
  }

  /**
   * A transfer whose reply, counted from the start of the capture, comes
   * after `k` quiet polls as the batches of `pieces`, none of them after a
   * pause longer than the inter-byte timeout, followed by a silence past
   * it, captures exactly the reply and stops on that silence. Nothing is
   * left queued, and the batches `rest` after the silence are left to
   * arrive.
   */
  lemma {:induction false} TransferredReply(s0: BusState, s: BusState, d: DirectionControl, preUs: nat, postUs: nat,
                                            sent: seq<byte>, cycle: Cycle, overallMs: nat, gapMs: nat,
                                            k: nat, pieces: seq<Piece>, rest: seq<seq<byte>>)
    requires Transferred(s0, s, d, preUs, postUs, sent, cycle, overallMs, gapMs) && s0.wire.drift == []
    requires cycle.heard + s.wire.arrivals == NoBytes(k) + Line(pieces) + NoBytes(gapMs + 1) + rest
    requires pieces != [] && Steady(pieces, gapMs) && |Bytes(pieces)| < |s.buffer|
    requires k + Span(pieces) + gapMs < overallMs
    ensures s.Held() == Bytes(pieces) && s.wire.fifo == [] && s.wire.arrivals == rest
    ensures cycle.stop == Silence(k + Span(pieces) + gapMs, gapMs)
    ensures s.wire.now == cycle.rxStart + k + Span(pieces) + gapMs
  {
    var p := Port([], cycle.heard + s.wire.arrivals, cycle.rxStart, s0.wire.drift);
    TrailWholeReply(p, cycle.trail, RxEnd(Rx(s.wire, s.Held(), s.rxLen > 0, cycle.lastByte, cycle.waited), cycle.stop),
                    k, pieces, rest, overallMs, gapMs, |s.buffer|);
  }

  /**
   * A transfer whose reply overflows the buffer, its last batch `q` coming
   * no later than the inter-byte timeout after the others, stops full: the
   * capture is the reply cut at the capacity, and the rest of `q` is left
   * queued.
   */
  lemma {:induction false} TransferredOverflow(s0: BusState, s: BusState, d: DirectionControl, preUs: nat, postUs: nat,
                                               sent: seq<byte>, cycle: Cycle, overallMs: nat, gapMs: nat,
                                               k: nat, pieces: seq<Piece>, q: Piece, rest: seq<seq<byte>>)
    requires Transferred(s0, s, d, preUs, postUs, sent, cycle, overallMs, gapMs) && s0.wire.drift == []
    requires cycle.heard + s.wire.arrivals == NoBytes(k) + Line(pieces) + NoBytes(q.pause) + ([q.batch] + rest)
    requires pieces != [] && Steady(pieces, gapMs) && q.pause <= gapMs
    requires |Bytes(pieces)| < |s.buffer| < |Bytes(pieces)| + |q.batch|
    requires k + Span(pieces) + q.pause < overallMs
    ensures var room := |s.buffer| - |Bytes(pieces)|;
            s.Held() == Bytes(pieces) + q.batch[..room] && s.wire.fifo == q.batch[room..] && s.wire.arrivals == rest
    ensures cycle.stop == Full(k + Span(pieces) + q.pause)
  {
    var p := Port([], cycle.heard + s.wire.arrivals, cycle.rxStart, s0.wire.drift);
    TrailOverflow(p, cycle.trail, RxEnd(Rx(s.wire, s.Held(), s.rxLen > 0, cycle.lastByte, cycle.waited), cycle.stop),
                  k, pieces, q, rest, overallMs, gapMs, |s.buffer|);
  }

  /** A transfer that hears nothing for the whole overall timeout captures nothing and stops on the timeout. */
  lemma {:induction false} TransferredTimeout(s0: BusState, s: BusState, d: DirectionControl, preUs: nat, postUs: nat,
                                              sent: seq<byte>, cycle: Cycle, overallMs: nat, gapMs: nat)
    requires Transferred(s0, s, d, preUs, postUs, sent, cycle, overallMs, gapMs) && s0.wire.drift == []
    requires Silent(cycle.heard + s.wire.arrivals, overallMs) && |s.buffer| > 0
    ensures s.rxLen == 0 && s.wire.fifo == [] && s.wire.arrivals == After(cycle.heard + s.wire.arrivals, overallMs)
    ensures cycle.stop == Timeout(overallMs) && s.wire.now == cycle.rxStart + overallMs
  {
    var p := Port([], cycle.heard + s.wire.arrivals, cycle.rxStart, s0.wire.drift);
    TrailTimesOut(p, cycle.trail, RxEnd(Rx(s.wire, s.Held(), s.rxLen > 0, cycle.lastByte, cycle.waited), cycle.stop),
                  overallMs, gapMs, |s.buffer|);
  }

  class RS485Bus {
    const mcu: Mcu
    const rxBuf: array<byte>
    var serialBound: bool
    var dir: DirectionControl
    var preTxDelayUs: u16
    var postTxDelayUs: u16
    var rxLen: nat
    ghost var exchanges: seq<Exchange>

    /** The capture buffer is not empty and the capture never passes it. */
    ghost predicate Sized()
      reads this
    {
      0 < rxBuf.Length && rxLen <= rxBuf.Length
    }

    /** `Sized`, and every exchange logged was made. */
    ghost predicate Valid()
      reads this
    {
      Sized() && Logged(exchanges)
    }

    /** The capture: `rawData()[0..rawLength())`. */
    function Captured(): (r: seq<byte>)
      reads this, rxBuf
      requires Sized()
      ensures |r| == rxLen
    {
      rxBuf[..rxLen]
    }

    /** `rawLength()`: never more than the capacity. */
    function RawLength(): (n: nat)
      reads this
      requires Sized()
      ensures n <= rxBuf.Length && n == |Captured()|
    {
      rxLen
    }

    /** `rawData()`: the whole capture buffer, of capacity `RX_BUFFER_SIZE`. */
    function RawData(): (a: array<byte>)
      reads this
      ensures a == rxBuf
    {
      rxBuf
    }

    /** The receive queue, the arrivals still to come and the clock, as the capture reference reads them. */
    ghost function Wire(): Port
      reads mcu
    {
      Port(mcu.fifo, mcu.arrivals, mcu.now, mcu.drift)
    }

    /** The bus state a transfer cycle changes. */
    ghost function State(): BusState
      reads this`rxLen, this`dir, this`preTxDelayUs, this`postTxDelayUs, rxBuf, mcu
    {
      BusState(Wire(), mcu.level, mcu.trace, rxBuf[..], rxLen, dir, preTxDelayUs, postTxDelayUs)
    }

    /** The exchanges of `trail` ran one after another, from bus state `s0` to the current one. */
    ghost predicate Ran(trail: seq<Exchange>, s0: BusState)
      reads this, rxBuf, mcu
    {
      Linked(trail, s0, State())
    }

    /** Bytes past the capture are still zero from the `memset`. */
    ghost predicate ZeroTail()
      reads this, rxBuf
    {
      forall j :: rxLen <= j < rxBuf.Length ==> rxBuf[j] == 0
    }

    /** Appends one byte to the capture. */
    method Store(c: byte)
      requires Sized() && rxLen < rxBuf.Length && ZeroTail()
      modifies this`rxLen, rxBuf
      ensures Sized() && ZeroTail() && rxLen == old(rxLen) + 1
      ensures Captured() == old(Captured()) + [c]
    {
      rxBuf[rxLen] := c;
      assert rxBuf[..rxLen + 1] == old(rxBuf[..rxLen]) + [c];
      rxLen := rxLen + 1;
    }

    constructor (mcu: Mcu, cfg: BuildConfig)
      requires cfg.Valid()
      ensures Valid() && this.mcu == mcu && fresh(rxBuf)
      ensures rxBuf.Length == RxBufferSize(cfg)
      ensures forall j :: 0 <= j < rxBuf.Length ==> rxBuf[j] == 0
      ensures !serialBound && dir == DirectionControl(-1, true)
      ensures preTxDelayUs == 200 && postTxDelayUs == 200
      ensures rxLen == 0 && exchanges == []
    {
      this.mcu := mcu;
      rxBuf := new byte[RxBufferSize(cfg)](_ => 0);
      serialBound := false;
      dir := DirectionControl(-1, true);
      preTxDelayUs := 200;
      postTxDelayUs := 200;
      rxLen := 0;
      exchanges := [];
    }

    /**
     * Binds the UART, puts the direction line in RX and drains stale input;
     * `flushed` is what the flush took: the batches that landed while it
     * ran and every byte it read.
     */
    method Begin() returns (ghost flushed: Cycle)
      requires Valid()
      modifies this`serialBound, mcu
      ensures Valid() && serialBound
      ensures dir.pin >= 0 ==> mcu.outputs == old(mcu.outputs) + {dir.pin as int}
      ensures dir.pin >= 0 ==> mcu.level == old(mcu.level)[dir.pin as int := dir.Level(false)]
      ensures dir.pin >= 0 ==>
                mcu.trace == old(mcu.trace) + [PinModeOutput(dir.pin as int), PinWrite(dir.pin as int, dir.Level(false))] +
                             Waits(|flushed.drained|)
      ensures dir.pin < 0 ==>
                mcu.outputs == old(mcu.outputs) && mcu.level == old(mcu.level) &&
                mcu.trace == old(mcu.trace) + Waits(|flushed.drained|)
      ensures mcu.fifo == []
      ensures old(mcu.arrivals) == flushed.landed + mcu.arrivals
      ensures flushed.drained == old(mcu.fifo) + Flatten(flushed.landed)
      ensures mcu.now == old(mcu.now) + |flushed.drained|
      ensures mcu.drift == old(mcu.drift)
    {
      serialBound := true;
      dir.Begin(mcu);
      flushed := FlushInput();
    }

    /** Replaces the direction control and puts its line in RX. */
    method SetDirectionControl(dePin: int8, activeHighTX: bool := true)
      modifies this`dir, mcu`outputs, mcu`level, mcu`trace
      ensures dir == DirectionControl(dePin, activeHighTX)
      ensures dePin >= 0 ==> mcu.outputs == old(mcu.outputs) + {dePin as int}
      ensures dePin >= 0 ==> mcu.level == old(mcu.level)[dePin as int := dir.Level(false)]
      ensures dePin >= 0 ==>
                mcu.trace == old(mcu.trace) + [PinModeOutput(dePin as int), PinWrite(dePin as int, dir.Level(false))]
      ensures dePin < 0 ==>
                mcu.outputs == old(mcu.outputs) && mcu.level == old(mcu.level) && mcu.trace == old(mcu.trace)
    {
      dir := DirectionControl(dePin, activeHighTX);
      dir.Begin(mcu);
    }

    method SetTimings(preTxDelayUs: u16, postTxDelayUs: u16)
      modifies this`preTxDelayUs, this`postTxDelayUs
      ensures this.preTxDelayUs == preTxDelayUs && this.postTxDelayUs == postTxDelayUs
    {
      this.preTxDelayUs := preTxDelayUs;
      this.postTxDelayUs := postTxDelayUs;
    }

    /**
     * Reads and discards bytes, waiting 1 ms after each, until the queue
     * reports empty. The ghost result says which bytes went and which
     * arrival batches landed meanwhile.
     */
    method FlushInput() returns (ghost c: Cycle)
      modifies mcu`fifo, mcu`arrivals, mcu`now, mcu`trace
      ensures !serialBound ==>
                mcu.fifo == old(mcu.fifo) && mcu.arrivals == old(mcu.arrivals) &&
                mcu.now == old(mcu.now) && mcu.trace == old(mcu.trace)
      ensures !serialBound ==> c.drained == [] && c.landed == []
      ensures serialBound ==> mcu.fifo == []
      ensures serialBound ==> old(mcu.arrivals) == c.landed + mcu.arrivals
      ensures serialBound ==> c.drained == old(mcu.fifo) + Flatten(c.landed)
      ensures serialBound ==> mcu.trace == old(mcu.trace) + Waits(|c.drained|)
      ensures serialBound ==> mcu.now == old(mcu.now) + |c.drained|
    {
      c := Cycle([], [], [], 0, Timeout(0), 0, 0, []);
      if !serialBound {
        return;
      }
      ghost var fifo0, arr0, tr0, now0 := mcu.fifo, mcu.arrivals, mcu.trace, mcu.now;
      ghost var drained: seq<byte> := [];
      ghost var landed: seq<seq<byte>> := [];
      var n := mcu.Available();
      if arr0 != [] {
        landed := [arr0[0]];
        assert Flatten(landed) == arr0[0] by {
          assert landed[..0] == [];
        }
        assert arr0 == landed + mcu.arrivals by {
          MoveHead([], arr0);
        }
      }
      while n > 0
        invariant n == |mcu.fifo|
        invariant arr0 == landed + mcu.arrivals
        invariant drained + mcu.fifo == fifo0 + Flatten(landed)
        invariant mcu.trace == tr0 + Waits(|drained|)
        invariant mcu.now == now0 + |drained|
        decreases |mcu.arrivals|, |mcu.fifo|
      {
        label step:
        ghost var b := DiscardOne();
        assert drained + [b] + mcu.fifo == fifo0 + Flatten(landed) by {
          MoveHead(drained, old@step(mcu.fifo));
        }
        Assoc(tr0, Waits(|drained|), [WaitMs(1)]);
        drained := drained + [b];
        ghost var pending, f := mcu.arrivals, mcu.fifo;
        n := mcu.Available();
        if pending != [] {
          LandBatch(drained, f, pending[0], fifo0, landed);
          MoveHead(landed, pending);
          Assoc(landed, [pending[0]], mcu.arrivals);
          landed := landed + [pending[0]];
        }
      }
      c := Cycle(drained, landed, [], 0, Timeout(0), 0, 0, []);
    }

    /** Discards the next queued byte and waits 1 ms. */
    method DiscardOne() returns (ghost b: byte)
      requires mcu.fifo != []
      modifies mcu`fifo, mcu`now, mcu`trace
      ensures b == old(mcu.fifo)[0] && mcu.fifo == old(mcu.fifo)[1..]
      ensures mcu.trace == old(mcu.trace) + [WaitMs(1)]
      ensures mcu.now == old(mcu.now) + 1
    {
      b := mcu.fifo[0];
      var _ := mcu.Read();
      mcu.Delay(1);
    }

    /** Hands the request bytes to the UART, in order. */
    method WriteAll(tx: array<byte>, txLen: nat)
      requires txLen <= tx.Length
      modifies mcu`trace
      ensures mcu.trace == old(mcu.trace) + Writes(tx[..txLen])
    {
      for i := 0 to txLen
        invariant mcu.trace == old(mcu.trace) + Writes(tx[..i])
      {
        mcu.Write(tx[i]);
        assert tx[..i + 1][..i] == tx[..i];
      }
    }

    /** Direction to TX, guard, the request bytes, flush, guard, direction to RX. */
    method SendFrame(tx: array<byte>, txLen: nat)
      requires txLen <= tx.Length
      modifies mcu`level, mcu`trace
      ensures mcu.trace == old(mcu.trace) + TxPhase(dir, tx[..txLen], preTxDelayUs, postTxDelayUs)
      ensures dir.pin >= 0 ==> mcu.level == old(mcu.level)[dir.pin as int := dir.Level(false)]
      ensures dir.pin < 0 ==> mcu.level == old(mcu.level)
    {
      ghost var t0, l0 := mcu.trace, mcu.level;
      dir.SetTX(mcu, true);
      ghost var t1 := mcu.trace;
      if preTxDelayUs != 0 {
        mcu.DelayMicroseconds(preTxDelayUs);
      }
      assert mcu.trace == t1 + GuardWait(preTxDelayUs);
      ghost var t2 := mcu.trace;
      WriteAll(tx, txLen);
      mcu.Flush();
      ghost var t3 := mcu.trace;
      assert t3 == t2 + Writes(tx[..txLen]) + [SerialFlush];
      if postTxDelayUs != 0 {
        mcu.DelayMicroseconds(postTxDelayUs);
      }
      assert mcu.trace == t3 + GuardWait(postTxDelayUs);
      ghost var t4 := mcu.trace;
      dir.SetTX(mcu, false);
      TxPhaseSteps(dir, tx[..txLen], preTxDelayUs, postTxDelayUs, t0, t1, t2, t3, t4, mcu.trace);
      if dir.pin >= 0 {
        assert mcu.level == l0[dir.pin as int := dir.Level(true)][dir.pin as int := dir.Level(false)];
        OverwriteLevel(l0, dir.pin as int, dir.Level(true), dir.Level(false));
      }
    }

    /**
     * One pass of the inner read loop: reads up to `avail` queued bytes while
     * capacity remains, stopping early should a read report none.
     */
    method ReadAvailable(avail: int) returns (ghost read: seq<byte>)
      requires Sized() && avail == |mcu.fifo| && avail > 0 && rxLen < rxBuf.Length
      requires ZeroTail()
      modifies this`rxLen, rxBuf, mcu`fifo
      ensures Sized() && rxLen > old(rxLen) && ZeroTail()
      ensures Captured() == old(Captured()) + read
      ensures read + mcu.fifo == old(mcu.fifo)
      ensures mcu.fifo != [] ==> rxLen == rxBuf.Length
      ensures var k := Min(avail, rxBuf.Length - old(rxLen));
              read == old(mcu.fifo)[..k] && mcu.fifo == old(mcu.fifo)[k..]
    {
      read := [];
      ghost var cap0, fifo0, len0 := Captured(), mcu.fifo, rxLen;
      var left := avail;
      while left > 0 && rxLen < rxBuf.Length
        invariant Sized() && ZeroTail() && len0 <= rxLen
        invariant left == |mcu.fifo|
        invariant left < avail ==> rxLen > len0
        invariant Captured() == cap0 + read
        invariant read + mcu.fifo == fifo0
        decreases left
      {
        left := left - 1;
        ghost var b := mcu.fifo[0];
        assert mcu.fifo == [b] + mcu.fifo[1..];
        var c := mcu.Read();
        if c < 0 {
          break;
        }
        Store(c as byte);
        read := read + [b];
      }
      assert |read| == Min(avail, rxBuf.Length - len0);
      assert read == fifo0[..|read|] && mcu.fifo == fifo0[|read|..];
    }

    /**
     * One pass of the RX capture loop body, after its guard: take what the
     * UART has, or, when nothing is queued, report a silence gap of at least
     * `interByteTimeoutMs` once a reply has started, or wait 1 ms. The pass
     * is the reference pass `PollOnce` from the loop state `r` on entry,
     * and `r2` is the loop state it leaves.
     */
    method Poll(interByteTimeoutMs: u32, started: bool, tLastByte: nat, ghost r: Rx)
      returns (started': bool, tLastByte': nat, silence: Option<nat>,
               ghost landed: seq<seq<byte>>, ghost waited: nat, ghost r2: Rx)
      requires Sized() && rxLen < rxBuf.Length && mcu.fifo == []
      requires ZeroTail()
      requires r == Rx(Wire(), Captured(), started, tLastByte, r.waited)
      requires started ==> tLastByte <= mcu.now
      modifies this`rxLen, rxBuf, mcu`fifo, mcu`arrivals, mcu`now, mcu`drift, mcu`trace
      ensures Sized() && ZeroTail()
      ensures old(mcu.arrivals) == landed + mcu.arrivals
      ensures old(Captured()) + Flatten(landed) == Captured() + mcu.fifo
      ensures mcu.fifo != [] ==> rxLen == rxBuf.Length
      ensures mcu.trace == old(mcu.trace) + Waits(waited)
      ensures r2 == Rx(Wire(), Captured(), started', tLastByte', r.waited + waited)
      ensures PollOnce(r, interByteTimeoutMs as nat, rxBuf.Length) ==
              (if silence.Some? then Quiet(r2, silence.value) else Next(r2))
    {
      started', tLastByte', silence, waited := started, tLastByte, None, 0;
      ghost var pending := mcu.arrivals;
      var avail := mcu.Available();
      assert Wire() == Land(r.port);
      landed := if pending == [] then [] else [pending[0]];
      assert Flatten(landed) == mcu.fifo by {
        if pending != [] {
          assert landed[..0] == [];
        }
      }
      if avail > 0 {
        started' := true;
        ghost var cap0, fifo0 := Captured(), mcu.fifo;
        ghost var read;
        tLastByte', read := TakeQueued(avail);
        assert cap0 + fifo0 == Captured() + mcu.fifo by {
          Assoc(cap0, read, mcu.fifo);
        }
        PollTakes(r, interByteTimeoutMs as nat, rxBuf.Length);
      } else {
        silence, waited := AwaitByte(interByteTimeoutMs, started, tLastByte);
        if silence.Some? {
          PollHears(r, interByteTimeoutMs as nat, rxBuf.Length);
        } else {
          PollWaits(r, interByteTimeoutMs as nat, rxBuf.Length);
        }
      }
      r2 := Rx(Wire(), Captured(), started', tLastByte', r.waited + waited);
    }

    /** The pass with bytes queued: move what fits into the capture, then read the clock. */
    method TakeQueued(avail: int) returns (t: nat, ghost read: seq<byte>)
      requires Sized() && avail == |mcu.fifo| && avail > 0 && rxLen < rxBuf.Length
      requires ZeroTail()
      modifies this`rxLen, rxBuf, mcu`fifo, mcu`now, mcu`drift
      ensures Sized() && ZeroTail()
      ensures Captured() == old(Captured()) + read
      ensures read + mcu.fifo == old(mcu.fifo)
      ensures mcu.fifo != [] ==> rxLen == rxBuf.Length
      ensures var k := Min(avail, rxBuf.Length - old(rxLen));
              t == old(mcu.now) &&
              Wire() == Tick(old(Wire()).(fifo := old(mcu.fifo)[k..])) &&
              Captured() == old(Captured()) + old(mcu.fifo)[..k]
    {
      read := ReadAvailable(avail);
      ghost var left := Wire();
      t := mcu.Millis();
      assert Wire() == Tick(left);
    }

    /**
     * The pass with nothing queued: once bytes have started, read the clock
     * and report the gap when it has reached `interByteTimeoutMs`; otherwise
     * wait 1 ms.
     */
    method AwaitByte(interByteTimeoutMs: u32, started: bool, tLastByte: nat)
      returns (silence: Option<nat>, ghost waited: nat)
      requires started ==> tLastByte <= mcu.now
      modifies mcu`now, mcu`drift, mcu`trace
      ensures mcu.trace == old(mcu.trace) + Waits(waited)
      ensures silence.Some? ==>
                started && old(mcu.now) - tLastByte >= interByteTimeoutMs as nat &&
                silence.value == old(mcu.now) - tLastByte && waited == 0 &&
                Wire() == Tick(old(Wire()))
      ensures silence.None? ==>
                !(started && old(mcu.now) - tLastByte >= interByteTimeoutMs as nat) && waited == 1 &&
                var q := if started then Tick(old(Wire())) else old(Wire());
                Wire() == q.(now := q.now + 1)
    {
      silence, waited := None, 0;
      ghost var p := Wire();
      if started {
        var t2 := mcu.Millis();
        if t2 - tLastByte >= interByteTimeoutMs as nat {
          silence := Some(t2 - tLastByte);
          assert Wire() == Tick(p);
          return;
        }
      }
      ghost var q := Wire();
      mcu.Delay(1);
      waited := 1;
      assert q == (if started then Tick(p) else p);
      assert Wire() == q.(now := q.now + 1);
    }

    /**
     * One turn of the RX capture loop: read the clock for the guard, stop on
     * the overall timeout or a full buffer, and otherwise make one pass.
     * `go` is false when the loop ends, with `stop` saying why. The turn is
     * the reference turn `Advance` from the last loop state `r` of the walk
     * `trail`: the walk goes on to the state `r2` the turn leaves, or ends
     * there.
     */
    method Turn(tStart: nat, overallTimeoutMs: u32, interByteTimeoutMs: u32,
                started: bool, tLastByte: nat, ghost r: Rx, ghost trail: seq<Rx>,
                ghost arrivals0: seq<seq<byte>>, ghost trace0: seq<Event>, ghost heard: seq<seq<byte>>)
      returns (go: bool, started': bool, tLastByte': nat,
               ghost stop: RxStop, ghost r2: Rx, ghost trail': seq<Rx>, ghost heard': seq<seq<byte>>)
      requires Sized() && ZeroTail() && (mcu.fifo != [] ==> rxLen == rxBuf.Length)
      requires arrivals0 == heard + mcu.arrivals && Captured() + mcu.fifo == Flatten(heard)
      requires mcu.trace == trace0 + Waits(r.waited)
      requires r == Rx(Wire(), Captured(), started, tLastByte, r.waited)
      requires Walk(trail, tStart, overallTimeoutMs as nat, interByteTimeoutMs as nat, rxBuf.Length)
      requires trail[|trail| - 1] == r
      modifies this`rxLen, rxBuf, mcu`fifo, mcu`arrivals, mcu`now, mcu`drift, mcu`trace
      ensures Sized() && ZeroTail() && (mcu.fifo != [] ==> rxLen == rxBuf.Length)
      ensures arrivals0 == heard' + mcu.arrivals && Captured() + mcu.fifo == Flatten(heard')
      ensures mcu.trace == trace0 + Waits(r2.waited)
      ensures r2 == Rx(Wire(), Captured(), started', tLastByte', r2.waited)
      ensures go ==>
                && trail' == trail + [r2]
                && Walk(trail', tStart, overallTimeoutMs as nat, interByteTimeoutMs as nat, rxBuf.Length)
                && Nearer(r2, r, tStart + overallTimeoutMs)
      ensures !go ==>
                trail' == trail &&
                Trail(trail, RxEnd(r2, stop), tStart, overallTimeoutMs as nat, interByteTimeoutMs as nat, rxBuf.Length)
    {
      go, started', tLastByte', stop, trail', heard' := false, started, tLastByte, Timeout(0), trail, heard;
      assert Kept(r, tStart, rxBuf.Length);
      var t := mcu.Millis();
      ghost var r1 := r.(port := Tick(r.port));
      assert r1 == Rx(Wire(), Captured(), started, tLastByte, r.waited);
      if !(t - tStart < overallTimeoutMs as nat && rxLen < rxBuf.Length) {
        if t - tStart >= overallTimeoutMs as nat {
          stop := Timeout(t - tStart);
        } else {
          stop := Full(t - tStart);
        }
        r2 := r1;
        WalkStops(trail, tStart, overallTimeoutMs as nat, interByteTimeoutMs as nat, rxBuf.Length);
        return;
      }
      ghost var landed, waited, cap0 := [], 0, Captured();
      go, started', tLastByte', stop, landed, waited, r2, trail' :=
        Pass(tStart, overallTimeoutMs, interByteTimeoutMs, started, tLastByte, r, trail);
      heard' := heard + landed;
      assert cap0 == Flatten(heard);
      FlattenAppend(heard, landed);
      Assoc(heard, landed, mcu.arrivals);
      Assoc(trace0, Waits(r.waited), Waits(waited));
      WaitsAppend(r.waited, waited);
    }

    /**
     * The rest of a turn whose guard holds: one pass, after which the walk
     * goes on, or ends on a silence.
     */
    method Pass(tStart: nat, overallTimeoutMs: u32, interByteTimeoutMs: u32,
                started: bool, tLastByte: nat, ghost r: Rx, ghost trail: seq<Rx>)
      returns (go: bool, started': bool, tLastByte': nat,
               ghost stop: RxStop, ghost landed: seq<seq<byte>>, ghost waited: nat, ghost r2: Rx,
               ghost trail': seq<Rx>)
      requires Sized() && ZeroTail() && rxLen < rxBuf.Length && mcu.fifo == []
      requires r.(port := Tick(r.port)) == Rx(Wire(), Captured(), started, tLastByte, r.waited)
      requires Walk(trail, tStart, overallTimeoutMs as nat, interByteTimeoutMs as nat, rxBuf.Length)
      requires trail[|trail| - 1] == r && r.port.now - tStart < overallTimeoutMs as nat
      modifies this`rxLen, rxBuf, mcu`fifo, mcu`arrivals, mcu`now, mcu`drift, mcu`trace
      ensures Sized() && ZeroTail()
      ensures old(mcu.arrivals) == landed + mcu.arrivals
      ensures old(Captured()) + Flatten(landed) == Captured() + mcu.fifo
      ensures mcu.fifo != [] ==> rxLen == rxBuf.Length
      ensures mcu.trace == old(mcu.trace) + Waits(waited)
      ensures r2 == Rx(Wire(), Captured(), started', tLastByte', r.waited + waited)
      ensures go ==>
                && trail' == trail + [r2]
                && Walk(trail', tStart, overallTimeoutMs as nat, interByteTimeoutMs as nat, rxBuf.Length)
                && Nearer(r2, r, tStart + overallTimeoutMs)
      ensures !go ==>
                trail' == trail &&
                Trail(trail, RxEnd(r2, stop), tStart, overallTimeoutMs as nat, interByteTimeoutMs as nat, rxBuf.Length)
    {
      var silence;
      go, stop, trail' := false, Timeout(0), trail;
      assert Kept(r, tStart, rxBuf.Length);
      started', tLastByte', silence, landed, waited, r2 :=
        Poll(interByteTimeoutMs, started, tLastByte, r.(port := Tick(r.port)));
      if silence.Some? {
        stop := Silence(r.port.now - tStart, silence.value);
        WalkQuiet(trail, r2, silence.value, tStart, overallTimeoutMs as nat, interByteTimeoutMs as nat, rxBuf.Length);
      } else {
        go, trail' := true, trail + [r2];
        WalkNext(trail, r2, tStart, overallTimeoutMs as nat, interByteTimeoutMs as nat, rxBuf.Length);
      }
    }

    /**
     * The RX capture loop of `transferRaw`: poll until the overall timeout
     * has elapsed, the buffer is full, or, once bytes have started, the line
     * has been silent for `interByteTimeoutMs`. The ghost `trail` is the
     * loop states the capture passed through, from the port on entry: it is
     * a `Trail` of the reference turns, so the capture is the reference
     * `CaptureRun` from that port (`TrailCapture`) and ends as `Ends` says.
     * `rxStart` is the clock reading the capture starts from, and `lastByte`
     * the reading taken after the last batch was moved into the capture.
     */
    method CaptureReply(overallTimeoutMs: u32, interByteTimeoutMs: u32)
      returns (ghost heard: seq<seq<byte>>, ghost waited: nat, ghost stop: RxStop,
               ghost rxStart: nat, ghost lastByte: nat, ghost trail: seq<Rx>, ghost fin: RxEnd)
      requires Sized() && rxLen == 0 && mcu.fifo == []
      requires ZeroTail()
      modifies this`rxLen, rxBuf, mcu`fifo, mcu`arrivals, mcu`now, mcu`drift, mcu`trace
      ensures Sized()
      ensures ZeroTail()
      ensures old(mcu.arrivals) == heard + mcu.arrivals
      ensures Captured() + mcu.fifo == Flatten(heard)
      ensures mcu.fifo != [] ==> rxLen == rxBuf.Length
      ensures mcu.trace == old(mcu.trace) + Waits(waited)
      ensures rxStart == old(mcu.now)
      ensures fin == RxEnd(Rx(Wire(), Captured(), rxLen > 0, lastByte, waited), stop)
      ensures Captures(old(Wire()), trail, fin, overallTimeoutMs as nat, interByteTimeoutMs as nat, rxBuf.Length)
      ensures Ends(fin, rxStart, overallTimeoutMs as nat, interByteTimeoutMs as nat, rxBuf.Length)
    {
      heard, waited := [], 0;
      ghost var p0, arrivals0, trace0 := Wire(), mcu.arrivals, mcu.trace;
      var tStart := mcu.Millis();
      rxStart := tStart;
      var tLastByte: nat := 0;
      lastByte := 0;
      var started := false;
      ghost var rx := Rx(Tick(p0), [], false, 0, 0);
      assert rx == Rx(Wire(), Captured(), started, tLastByte, 0);
      trail := [rx];
      while true
        invariant Sized() && ZeroTail() && (mcu.fifo != [] ==> rxLen == rxBuf.Length)
        invariant arrivals0 == heard + mcu.arrivals && Captured() + mcu.fifo == Flatten(heard)
        invariant mcu.trace == trace0 + Waits(rx.waited)
        invariant lastByte == tLastByte
        invariant rx == Rx(Wire(), Captured(), started, tLastByte, rx.waited)
        invariant Walk(trail, tStart, overallTimeoutMs as nat, interByteTimeoutMs as nat, rxBuf.Length)
        invariant trail[0] == Rx(Tick(p0), [], false, 0, 0) && trail[|trail| - 1] == rx
        decreases Remaining(tStart + overallTimeoutMs, mcu.now), rxBuf.Length - rxLen
      {
        var go;
        ghost var s, rx2, trail2;
        go, started, tLastByte, s, rx2, trail2, heard :=
          Turn(tStart, overallTimeoutMs, interByteTimeoutMs, started, tLastByte, rx, trail, arrivals0, trace0, heard);
        lastByte := tLastByte;
        if !go {
          stop, fin, waited := s, RxEnd(rx2, s), rx2.waited;
          TrailEnds(trail, fin, tStart, overallTimeoutMs as nat, interByteTimeoutMs as nat, rxBuf.Length);
          break;
        }
        trail, rx := trail2, rx2;
      }
    }

    /** Empties the capture and zeroes the whole buffer. */
    method ClearCapture()
      requires Sized()
      modifies this`rxLen, rxBuf
      ensures Sized() && rxLen == 0 && ZeroTail()
      ensures rxBuf[..] == Zeros(rxBuf.Length)
    {
      for j := 0 to rxBuf.Length
        invariant forall k :: 0 <= k < j ==> rxBuf[k] == 0
      {
        rxBuf[j] := 0;
      }
      rxLen := 0;
      assert rxBuf[..] == Zeros(rxBuf.Length);
    }

    /**
     * One half-duplex cycle: clear the capture, flush stale input, send
     * `tx[0..txLen)` with the direction line in TX, then capture the reply.
     * Returns whether anything was captured. The ghost `cycle` says what was
     * flushed, what arrived during capture, and why capture stopped.
     */
    method TransferRaw(tx: array?<byte>, txLen: nat, overallTimeoutMs: u32 := 250,
                       interByteTimeoutMs: u32 := 25)
      returns (gotAny: bool, ghost sent: seq<byte>, ghost cycle: Cycle)
      requires Valid()
      requires tx != null ==> txLen <= tx.Length
      modifies this`rxLen, this`exchanges, rxBuf, mcu
      ensures Valid() && gotAny == (rxLen > 0)
      ensures exchanges == old(exchanges) + [Exchange(sent, Captured(), overallTimeoutMs, interByteTimeoutMs,
                                                      old(State()), State())]
      ensures !serialBound || tx == null || txLen == 0 ==>
                rxLen == 0 && sent == [] && rxBuf[..] == old(rxBuf[..]) && unchanged(mcu)
      ensures serialBound && tx != null && txLen > 0 ==>
                sent == (if tx == rxBuf then Zeros(txLen) else old(tx[..txLen]))
      ensures serialBound && tx != null && txLen > 0 ==>
                Transferred(old(State()), State(), dir, preTxDelayUs, postTxDelayUs, sent, cycle,
                            overallTimeoutMs as nat, interByteTimeoutMs as nat)
    {
      ghost var s0 := State();
      cycle := Cycle([], [], [], 0, Timeout(0), 0, 0, []);
      if !serialBound || tx == null || txLen == 0 {
        rxLen := 0;
        sent := [];
        gotAny := false;
        ghost var e := Exchange(sent, Captured(), overallTimeoutMs, interByteTimeoutMs, s0, State());
        LoggedSnoc(exchanges, e);
        exchanges := exchanges + [e];
        return;
      }
      sent, cycle := TransferStep(tx, txLen, overallTimeoutMs, interByteTimeoutMs);
      gotAny := rxLen > 0;
      ghost var e := Exchange(sent, Captured(), overallTimeoutMs, interByteTimeoutMs, s0, State());
      MadeByCycle(e, cycle);
      LoggedSnoc(exchanges, e);
      exchanges := exchanges + [e];
    }

    /** The bound-UART cycle of `transferRaw` as one step of the transfer relation. */
    method TransferStep(tx: array<byte>, txLen: nat, overallTimeoutMs: u32, interByteTimeoutMs: u32)
      returns (ghost sent: seq<byte>, ghost cycle: Cycle)
      requires Valid() && serialBound
      requires 0 < txLen <= tx.Length
      modifies this`rxLen, rxBuf, mcu
      ensures Valid()
      ensures sent == (if tx == rxBuf then Zeros(txLen) else old(tx[..txLen]))
      ensures Transferred(old(State()), State(), dir, preTxDelayUs, postTxDelayUs, sent, cycle,
                          overallTimeoutMs, interByteTimeoutMs)
    {
      sent, cycle := TransferCycle(tx, txLen, overallTimeoutMs, interByteTimeoutMs);
    }

    /**
     * The half-duplex cycle of `transferRaw` once the UART is bound and
     * there is something to send: clear, flush, send, capture.
     */
    method TransferCycle(tx: array<byte>, txLen: nat, overallTimeoutMs: u32, interByteTimeoutMs: u32)
      returns (ghost sent: seq<byte>, ghost cycle: Cycle)
      requires Sized() && serialBound
      requires 0 < txLen <= tx.Length
      modifies this`rxLen, rxBuf, mcu
      ensures Sized() && ZeroTail()
      ensures sent == (if tx == rxBuf then Zeros(txLen) else old(tx[..txLen]))
      ensures cycle.drained == old(mcu.fifo) + Flatten(cycle.landed)
      ensures old(mcu.arrivals) == cycle.landed + cycle.heard + mcu.arrivals
      ensures Captured() + mcu.fifo == Flatten(cycle.heard)
      ensures mcu.fifo != [] ==> rxLen == rxBuf.Length
      ensures mcu.trace == old(mcu.trace) + Waits(|cycle.drained|) +
                           TxPhase(dir, sent, preTxDelayUs, postTxDelayUs) + Waits(cycle.waited)
      ensures dir.pin >= 0 ==> mcu.level == old(mcu.level)[dir.pin as int := dir.Level(false)]
      ensures dir.pin < 0 ==> mcu.level == old(mcu.level)
      ensures cycle.rxStart == old(mcu.now) + |cycle.drained|
      ensures cycle.rxStart + cycle.stop.elapsed <= mcu.now
      ensures cycle.stop.Timeout? ==> cycle.stop.elapsed >= overallTimeoutMs
      ensures cycle.stop.Full? ==> cycle.stop.elapsed < overallTimeoutMs && rxLen == rxBuf.Length
      ensures cycle.stop.Silence? ==>
                cycle.stop.elapsed < overallTimeoutMs && rxLen > 0 && mcu.fifo == [] &&
                cycle.stop.gap >= interByteTimeoutMs &&
                cycle.rxStart + cycle.stop.elapsed <= cycle.lastByte + cycle.stop.gap <= mcu.now
      ensures rxLen > 0 ==> cycle.rxStart <= cycle.lastByte <= mcu.now
      ensures rxLen == 0 ==> cycle.stop.Timeout?
      ensures Captures(Port([], cycle.heard + mcu.arrivals, cycle.rxStart, old(mcu.drift)), cycle.trail,
                       RxEnd(Rx(Wire(), Captured(), rxLen > 0, cycle.lastByte, cycle.waited), cycle.stop),
                       overallTimeoutMs as nat, interByteTimeoutMs as nat, rxBuf.Length)
    {
      ghost var tx0 := tx[..txLen];
      ClearCapture();
      sent := tx[..txLen];
      assert sent == (if tx == rxBuf then Zeros(txLen) else tx0) by {
        if tx == rxBuf {
          assert sent == rxBuf[..][..txLen];
        }
      }
      ghost var tr0, arr0, lv0 := mcu.trace, mcu.arrivals, mcu.level;
      ghost var flushed := FlushInput();
      ghost var tr1 := mcu.trace;
      SendFrame(tx, txLen);
      ghost var tr2 := mcu.trace;
      ghost var p0 := Wire();
      assert p0 == Port([], mcu.arrivals, old(mcu.now) + |flushed.drained|, old(mcu.drift));
      ghost var heard, waited, stop, rxStart, lastByte, trail, fin := CaptureReply(overallTimeoutMs, interByteTimeoutMs);
      cycle := Cycle(flushed.drained, flushed.landed, heard, waited, stop, rxStart, lastByte, trail);
      assert old(mcu.arrivals) == cycle.landed + cycle.heard + mcu.arrivals by {
        Assoc(flushed.landed, heard, mcu.arrivals);
      }
    }

    /**
     * Scans the capture for the lowest index where `prefix[0..prefixLen)`
     * matches and `expectedFrameLen` bytes pass the CRC check; on success
     * copies that window into `outFrame` and reports the index. Neither the
     * capture nor, on failure, `outFrame` changes.
     */
    method ExtractFixedFrameByPrefix(prefix: array?<byte>, prefixLen: nat, expectedFrameLen: nat,
                                     outFrame: array?<byte>, outFrameMax: nat)
      returns (found: bool, outIndex: Option<nat>)
      requires Valid()
      requires prefix != null ==> prefixLen <= prefix.Length
      requires outFrame != null ==> outFrameMax <= outFrame.Length && outFrame != rxBuf
      modifies outFrame
      ensures prefix == null || outFrame == null ==> !found && outIndex == None
      ensures prefix != null && outFrame != null ==>
                var r := Frames.Extract(Captured(), old(prefix[..prefixLen]), expectedFrameLen, outFrameMax);
                found == r.Some? && outIndex == r &&
                (found ==>
                   outFrame[..expectedFrameLen] == Captured()[r.value..r.value + expectedFrameLen] &&
                   outFrame[expectedFrameLen..] == old(outFrame[expectedFrameLen..]))
      ensures !found && outFrame != null ==> outFrame[..] == old(outFrame[..])
    {
      found, outIndex := false, None;
      if prefix == null || prefixLen == 0 || expectedFrameLen == 0 {
        return;
      }
      if outFrame == null || outFrameMax < expectedFrameLen {
        return;
      }
      if rxLen < expectedFrameLen || expectedFrameLen < prefixLen {
        return;
      }
      ghost var raw, p := Captured(), prefix[..prefixLen];
      var i := 0;
      while i + expectedFrameLen <= rxLen
        invariant Frames.ScanFrom(raw, p, expectedFrameLen, 0) == Frames.ScanFrom(raw, p, expectedFrameLen, i)
        invariant outFrame[..] == old(outFrame[..]) && prefix[..prefixLen] == p
        decreases rxLen - i
      {
        var hit := FrameStartsAt(prefix, prefixLen, expectedFrameLen, i);
        if hit {
          assert Frames.ScanFrom(raw, p, expectedFrameLen, i) == Some(i);
          CopyWindow(i, expectedFrameLen, outFrame);
          found, outIndex := true, Some(i);
          return;
        }
        i := i + 1;
      }
      assert Frames.ScanFrom(raw, p, expectedFrameLen, i) == None;
    }

    /**
     * One step of the scan: the prefix comparison at `i`, then, on a match,
     * the CRC check of the `len` bytes from `i`.
     */
    method FrameStartsAt(prefix: array<byte>, prefixLen: nat, len: nat, i: nat) returns (hit: bool)
      requires Sized() && prefixLen <= prefix.Length && prefixLen <= len && i + len <= rxLen
      ensures hit == Frames.FrameAt(Captured(), prefix[..prefixLen], len, i)
    {
      var ok := MatchesAt(prefix, prefixLen, i);
      if !ok {
        return false;
      }
      hit := VerifyCrc16ModbusFrame(rxBuf, i, len);
      assert rxBuf[i..i + len] == Captured()[i..i + len];
    }

    /** The inner prefix comparison of the scan. */
    method MatchesAt(prefix: array<byte>, prefixLen: nat, i: nat) returns (ok: bool)
      requires Sized() && prefixLen <= prefix.Length && i + prefixLen <= rxLen
      ensures ok == Frames.PrefixAt(Captured(), prefix[..prefixLen], i)
    {
      ok := true;
      for k := 0 to prefixLen
        invariant rxBuf[i..i + k] == prefix[..k]
      {
        if rxBuf[i + k] != prefix[k] {
          assert Captured()[i + k] == rxBuf[i + k];
          assert Captured()[i..i + prefixLen][k] != prefix[..prefixLen][k];
          ok := false;
          break;
        }
        assert rxBuf[i..i + k + 1] == prefix[..k + 1];
      }
      if ok {
        assert Captured()[i..i + prefixLen] == rxBuf[i..i + prefixLen];
      }
    }

    /** Copies the `len` captured bytes from index `i` to the front of `outFrame`. */
    method CopyWindow(i: nat, len: nat, outFrame: array<byte>)
      requires Sized() && i + len <= rxLen && len <= outFrame.Length && outFrame != rxBuf
      modifies outFrame
      ensures outFrame[..len] == Captured()[i..i + len]
      ensures outFrame[len..] == old(outFrame[len..])
    {
      for j := 0 to len
        invariant outFrame[..j] == rxBuf[i..i + j]
        invariant outFrame[j..] == old(outFrame[j..])
      {
        outFrame[j] := rxBuf[i + j];
        assert outFrame[..j + 1] == rxBuf[i..i + j + 1];
      }
      assert Captured()[i..i + len] == rxBuf[i..i + len];
    }

    /**
     * `transferRaw` followed, when something was captured, by
     * `extractFixedFrameByPrefix`. `outIndex` is None when the index output
     * was left unwritten, and otherwise the value written: the frame index,
     * or 0 when no frame was found.
     */
    method TransferAndExtractFixedFrame(tx: array?<byte>, txLen: nat, prefix: array?<byte>,
                                        prefixLen: nat, expectedFrameLen: nat,
                                        outFrame: array?<byte>, outFrameMax: nat,
                                        overallTimeoutMs: u32 := 250, interByteTimeoutMs: u32 := 25)
      returns (ok: bool, outIndex: Option<nat>, ghost sent: seq<byte>, ghost cycle: Cycle, ghost scanned: seq<byte>,
              ghost after: BusState)
      requires Valid()
      requires tx != null ==> txLen <= tx.Length
      requires prefix != null ==> prefixLen <= prefix.Length
      requires outFrame != null ==> outFrameMax <= outFrame.Length && outFrame != rxBuf
      modifies this`rxLen, this`exchanges, rxBuf, mcu, outFrame
      ensures Valid()
      ensures exchanges == old(exchanges) + [Exchange(sent, Captured(), overallTimeoutMs, interByteTimeoutMs,
                                                      old(State()), after)]
      ensures !serialBound || tx == null || txLen == 0 ==> rxLen == 0 && sent == [] && unchanged(mcu)
      ensures serialBound && tx != null && txLen > 0 ==>
                sent == (if tx == rxBuf then Zeros(txLen) else old(tx[..txLen]))
      ensures serialBound && tx != null && txLen > 0 ==>
                Transferred(old(State()), after, dir, preTxDelayUs, postTxDelayUs, sent, cycle,
                            overallTimeoutMs as nat, interByteTimeoutMs as nat)
      ensures State() == after
      ensures rxLen == 0 ==> !ok && outIndex == None
      ensures rxLen > 0 ==> outIndex.Some? && (!ok ==> outIndex == Some(0))
      ensures prefix == null || outFrame == null ==> !ok
      ensures prefix != null ==> scanned == if prefix == rxBuf then rxBuf[..prefixLen] else old(prefix[..prefixLen])
      ensures rxLen > 0 && prefix != null && outFrame != null ==>
                var r := Frames.Extract(Captured(), scanned, expectedFrameLen, outFrameMax);
                ok == r.Some? && outIndex == Some(if ok then r.value else 0) &&
                (ok ==>
                   outFrame[..expectedFrameLen] == Captured()[r.value..r.value + expectedFrameLen] &&
                   outFrame[expectedFrameLen..] == old(outFrame[expectedFrameLen..]))
      ensures !ok && outFrame != null ==> outFrame[..] == old(outFrame[..])
    {
      ghost var frame0 := if outFrame == null then [] else outFrame[..];
      var gotAny;
      gotAny, sent, cycle := TransferRaw(tx, txLen, overallTimeoutMs, interByteTimeoutMs);
      after := State();
      scanned := if prefix == null then [] else prefix[..prefixLen];
      ok, outIndex := ExtractIfCaptured(gotAny, prefix, prefixLen, expectedFrameLen, outFrame, outFrameMax,
                                        scanned, frame0);
    }

    /**
     * The extraction half of `transferAndExtractFixedFrame`: nothing when
     * nothing was captured, otherwise the scan, with index 0 written on a miss.
     */
    method ExtractIfCaptured(gotAny: bool, prefix: array?<byte>, prefixLen: nat, expectedFrameLen: nat,
                             outFrame: array?<byte>, outFrameMax: nat, ghost scanned: seq<byte>,
                             ghost frame0: seq<byte>)
      returns (ok: bool, outIndex: Option<nat>)
      requires Valid() && gotAny == (rxLen > 0)
      requires prefix != null ==> prefixLen <= prefix.Length && prefix[..prefixLen] == scanned
      requires outFrame != null ==> outFrameMax <= outFrame.Length && outFrame != rxBuf && outFrame[..] == frame0
      modifies outFrame
      ensures rxLen == 0 ==> !ok && outIndex == None
      ensures rxLen > 0 ==> outIndex.Some? && (!ok ==> outIndex == Some(0))
      ensures prefix == null || outFrame == null ==> !ok
      ensures rxLen > 0 && prefix != null && outFrame != null ==>
                var r := Frames.Extract(Captured(), scanned, expectedFrameLen, outFrameMax);
                ok == r.Some? && outIndex == Some(if ok then r.value else 0) &&
                (ok ==>
                   outFrame[..expectedFrameLen] == Captured()[r.value..r.value + expectedFrameLen] &&
                   outFrame[expectedFrameLen..] == frame0[expectedFrameLen..])
      ensures !ok && outFrame != null ==> outFrame[..] == frame0
    {
      if !gotAny {
        return false, None;
      }
      var found, idx := ExtractFixedFrameByPrefix(prefix, prefixLen, expectedFrameLen, outFrame, outFrameMax);
      ok := found;
      outIndex := Some(if found then idx.value else 0);
    }
  }
}
