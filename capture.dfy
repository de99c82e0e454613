/**
 * The receive half of `transferRaw` as a reference function over the two
 * oracles of the microcontroller model: the arrival batches, one landing per
 * `available()` call, and the clock drift, one step per `millis()` reading.
 * `Run` goes through the capture loop pass by pass, so it fixes what is
 * captured, what stays queued or still to arrive, the clock at the end, the
 * 1 ms waits taken and why the loop stopped. The lemmas below it say how the
 * loop treats a reply: bursts are taken whole, pauses shorter than the
 * inter-byte timeout are waited out, the first long enough silence ends the
 * capture with later bytes left on the line, and a full buffer ends it.
 */
module Capture {

  import opened Types
  import opened Hardware

  /**
   * Why capture stopped; `elapsed` is the reading of the loop guard, measured
   * from the RX start.
   */
  datatype RxStop =
    | Timeout(elapsed: nat)
    | Silence(elapsed: nat, gap: nat)
    | Full(elapsed: nat)

  /** Milliseconds left until `deadline`, or 0 once it has passed. */
  function Remaining(deadline: nat, now: nat): nat {
    if deadline > now then deadline - now else 0
  }

  lemma {:induction false} RemainingMonotone(deadline: nat, before: nat, after: nat)
    requires before <= after
    ensures Remaining(deadline, after) <= Remaining(deadline, before)
  {
  }

  lemma {:induction false} RemainingShrinks(deadline: nat, before: nat, after: nat)
    requires before < deadline && before < after
    ensures Remaining(deadline, after) < Remaining(deadline, before)
  {
  }

  /** The receive queue, the batches still to arrive, the clock and its drift. */
  datatype Port = Port(fifo: seq<byte>, arrivals: seq<seq<byte>>, now: nat, drift: seq<nat>)

  /** The port after a `millis()` reading: the clock moves on by the next drift. */
  function Tick(p: Port): (q: Port)
    ensures p.now <= q.now
  {
    if p.drift == [] then p else p.(now := p.now + p.drift[0], drift := p.drift[1..])
  }

  /** The port after `available()`: the next batch, if any, lands in the queue. */
  function Land(p: Port): Port {
    if p.arrivals == [] then p else p.(fifo := p.fifo + p.arrivals[0], arrivals := p.arrivals[1..])
  }

  /** The capture loop's variables between passes, with the 1 ms waits taken so far. */
  datatype Rx = Rx(port: Port, captured: seq<byte>, started: bool, lastByte: nat, waited: nat)

  /** One pass of the loop body: go on from `rx`, or stop after a silence of `gap` ms. */
  datatype Pass = Next(rx: Rx) | Quiet(rx: Rx, gap: nat)

  /** Where the loop ended and why. */
  datatype RxEnd = RxEnd(rx: Rx, stop: RxStop)

  function Min(a: nat, b: nat): nat {
    if a <= b then a else b
  }

  /**
   * The loop body after its guard, on a buffer of `cap` bytes: take what
   * the queue holds, up to the space left, and read the clock; or, with
   * nothing queued, stop when bytes have started and the gap since the last
   * of them has reached `gapMs`, and otherwise wait 1 ms.
   */
  function PollOnce(r: Rx, gapMs: nat, cap: nat): (res: Pass)
    requires |r.captured| < cap && (r.started ==> r.lastByte <= r.port.now)
    ensures |res.rx.captured| <= cap && r.port.now <= res.rx.port.now
    ensures res.Next? ==> |r.captured| < |res.rx.captured| || r.port.now < res.rx.port.now
    ensures res.rx.started ==> res.rx.lastByte <= res.rx.port.now
  {
    var p := Land(r.port);
    if |p.fifo| > 0 then
      var k := Min(|p.fifo|, cap - |r.captured|);
      var left := p.(fifo := p.fifo[k..]);
      Next(Rx(Tick(left), r.captured + p.fifo[..k], true, left.now, r.waited))
    else if r.started && p.now - r.lastByte >= gapMs then
      Quiet(r.(port := Tick(p)), p.now - r.lastByte)
    else
      var q := if r.started then Tick(p) else p;
      Next(r.(port := q.(now := q.now + 1), waited := r.waited + 1))
  }

  /** A pass that finds bytes queued takes as many as there is room for, then reads the clock. */
  lemma {:induction false} PollTakes(r: Rx, gapMs: nat, cap: nat)
    requires |r.captured| < cap && (r.started ==> r.lastByte <= r.port.now)
    requires |Land(r.port).fifo| > 0
    ensures var p := Land(r.port);
            var k := Min(|p.fifo|, cap - |r.captured|);
            PollOnce(r, gapMs, cap) ==
            Next(Rx(Tick(p.(fifo := p.fifo[k..])), r.captured + p.fifo[..k], true, p.now, r.waited))
  {
  }

  /** A pass that finds nothing queued, once bytes have started and `gapMs` has passed since the last, stops. */
  lemma {:induction false} PollHears(r: Rx, gapMs: nat, cap: nat)
    requires |r.captured| < cap && r.started && r.lastByte <= r.port.now
    requires Land(r.port).fifo == [] && Land(r.port).now - r.lastByte >= gapMs
    ensures PollOnce(r, gapMs, cap) == Quiet(r.(port := Tick(Land(r.port))), Land(r.port).now - r.lastByte)
  {
  }

  /** A pass that finds nothing queued and no silence long enough waits 1 ms. */
  lemma {:induction false} PollWaits(r: Rx, gapMs: nat, cap: nat)
    requires |r.captured| < cap && (r.started ==> r.lastByte <= r.port.now)
    requires Land(r.port).fifo == [] && !(r.started && Land(r.port).now - r.lastByte >= gapMs)
    ensures var q := if r.started then Tick(Land(r.port)) else Land(r.port);
            PollOnce(r, gapMs, cap) == Next(r.(port := q.(now := q.now + 1), waited := r.waited + 1))
  {
  }

  /** One turn of the loop: go on from `rx`, or stop at `end`. */
  datatype Turn = More(rx: Rx) | Done(end: RxEnd)

  /**
   * One turn of the loop from `r`: a guard reading at or past `overallMs`
   * from `tStart`, or a full buffer, ends it; otherwise one pass of the body.
   */
  function Advance(r: Rx, tStart: nat, overallMs: nat, gapMs: nat, cap: nat): (s: Turn)
    requires tStart <= r.port.now && |r.captured| <= cap
    requires r.started ==> r.lastByte <= r.port.now
  {
    var t := r.port.now;
    var r1 := r.(port := Tick(r.port));
    if !(t - tStart < overallMs && |r.captured| < cap) then
      Done(RxEnd(r1, if t - tStart >= overallMs then Timeout(t - tStart) else Full(t - tStart)))
    else
      match PollOnce(r1, gapMs, cap)
      case Quiet(r2, g) => Done(RxEnd(r2, Silence(t - tStart, g)))
      case Next(r2) => More(r2)
  }

  /**
   * A turn that goes on keeps the loop state well formed and makes progress:
   * less time to the deadline, or as much and more bytes captured.
   */
  lemma {:induction false} AdvanceProgress(r: Rx, tStart: nat, overallMs: nat, gapMs: nat, cap: nat)
    requires tStart <= r.port.now && |r.captured| <= cap
    requires r.started ==> r.lastByte <= r.port.now
    ensures var s := Advance(r, tStart, overallMs, gapMs, cap);
            s.More? ==>
              tStart <= s.rx.port.now && |s.rx.captured| <= cap &&
              (s.rx.started ==> s.rx.lastByte <= s.rx.port.now) &&
              (Remaining(tStart + overallMs, s.rx.port.now) < Remaining(tStart + overallMs, r.port.now) ||
               (Remaining(tStart + overallMs, s.rx.port.now) == Remaining(tStart + overallMs, r.port.now) &&
                |r.captured| < |s.rx.captured|))
  {
    var s := Advance(r, tStart, overallMs, gapMs, cap);
    if s.More? {
      var t := r.port.now;
      RemainingMonotone(tStart + overallMs, t, s.rx.port.now);
      if t < s.rx.port.now {
        RemainingShrinks(tStart + overallMs, t, s.rx.port.now);
      }
    }
  }

  /** The loop from `r` on, turn after turn, to where it stops. */
  function Run(r: Rx, tStart: nat, overallMs: nat, gapMs: nat, cap: nat): (e: RxEnd)
    requires tStart <= r.port.now && |r.captured| <= cap
    requires r.started ==> r.lastByte <= r.port.now
    decreases Remaining(tStart + overallMs, r.port.now), cap - |r.captured|
  {
    match Advance(r, tStart, overallMs, gapMs, cap)
    case Done(e) => e
    case More(r2) =>
      AdvanceProgress(r, tStart, overallMs, gapMs, cap);
      Run(r2, tStart, overallMs, gapMs, cap)
  }

  /** The loop state as the capture keeps it: bytes have started exactly when some are captured, no earlier than `tStart`. */
  ghost predicate Kept(r: Rx, tStart: nat, cap: nat) {
    && tStart <= r.port.now && |r.captured| <= cap
    && r.started == (|r.captured| > 0)
    && (r.started ==> tStart <= r.lastByte <= r.port.now)
  }

  /**
   * How a capture can end: the guard reading lies within the time taken;
   * a timeout has reached `overallMs`; a full buffer or a silence came
   * before it; a full stop holds `cap` bytes; a silence stop comes after
   * bytes started, with nothing queued, at least `gapMs` after the
   * reading taken after the last batch.
   */
  ghost predicate Ends(e: RxEnd, tStart: nat, overallMs: nat, gapMs: nat, cap: nat) {
    && Kept(e.rx, tStart, cap)
    && tStart + e.stop.elapsed <= e.rx.port.now
    && (e.stop.Timeout? ==> e.stop.elapsed >= overallMs)
    && (e.stop.Full? ==> e.stop.elapsed < overallMs && |e.rx.captured| == cap)
    && (e.stop.Silence? ==>
          && e.stop.elapsed < overallMs && e.rx.started && e.rx.port.fifo == [] && e.stop.gap >= gapMs
          && tStart + e.stop.elapsed <= e.rx.lastByte + e.stop.gap <= e.rx.port.now)
  }

  /** A turn keeps the loop state as the capture keeps it, and a turn that stops ends as `Ends` says. */
  lemma {:induction false} AdvanceKeeps(r: Rx, tStart: nat, overallMs: nat, gapMs: nat, cap: nat)
    requires Kept(r, tStart, cap)
    ensures var s := Advance(r, tStart, overallMs, gapMs, cap);
            (s.More? ==> Kept(s.rx, tStart, cap)) && (s.Done? ==> Ends(s.end, tStart, overallMs, gapMs, cap))
  {
  }

  /** Every capture from a kept state ends as `Ends` says. */
  lemma {:induction false} RunEnds(r: Rx, tStart: nat, overallMs: nat, gapMs: nat, cap: nat)
    requires Kept(r, tStart, cap)
    ensures Ends(Run(r, tStart, overallMs, gapMs, cap), tStart, overallMs, gapMs, cap)
    decreases Remaining(tStart + overallMs, r.port.now), cap - |r.captured|
  {
    AdvanceKeeps(r, tStart, overallMs, gapMs, cap);
    AdvanceProgress(r, tStart, overallMs, gapMs, cap);
    match Advance(r, tStart, overallMs, gapMs, cap)
    case Done(e) =>
    case More(r2) =>
      RunEnds(r2, tStart, overallMs, gapMs, cap);
  }

  /** The time left before `deadline` has shrunk from `r` to `r2`, or stayed and the capture grew. */
  ghost predicate Nearer(r2: Rx, r: Rx, deadline: nat) {
    || Remaining(deadline, r2.port.now) < Remaining(deadline, r.port.now)
    || (Remaining(deadline, r2.port.now) == Remaining(deadline, r.port.now) && |r.captured| < |r2.captured|)
  }

  /** The whole receive half from port `p`: read the start time, then loop from an empty capture. */
  function CaptureRun(p: Port, overallMs: nat, gapMs: nat, cap: nat): RxEnd {
    Run(Rx(Tick(p), [], false, 0, 0), p.now, overallMs, gapMs, cap)
  }

  /** Every capture ends as `Ends` says, timed from the start reading. */
  lemma CaptureEnds(p: Port, overallMs: nat, gapMs: nat, cap: nat)
    ensures Ends(CaptureRun(p, overallMs, gapMs, cap), p.now, overallMs, gapMs, cap)
  {
    RunEnds(Rx(Tick(p), [], false, 0, 0), p.now, overallMs, gapMs, cap);
  }

  /**
   * `trail` is the loop states of one capture in order, each kept: the turn
   * from each state goes on to the next, and the turn from the last ends
   * at `e`.
   */
  ghost predicate Trail(trail: seq<Rx>, e: RxEnd, tStart: nat, overallMs: nat, gapMs: nat, cap: nat) {
    && trail != []
    && (forall i :: 0 <= i < |trail| ==> Kept(trail[i], tStart, cap))
    && forall i {:trigger Advance(trail[i], tStart, overallMs, gapMs, cap)} :: 0 <= i < |trail| ==>
         Advance(trail[i], tStart, overallMs, gapMs, cap) == (if i + 1 < |trail| then More(trail[i + 1]) else Done(e))
  }

  /** `trail` is loop states in order, each kept, the turn from each but the last going on to the next. */
  ghost predicate Walk(trail: seq<Rx>, tStart: nat, overallMs: nat, gapMs: nat, cap: nat) {
    && trail != []
    && (forall i :: 0 <= i < |trail| ==> Kept(trail[i], tStart, cap))
    && forall i {:trigger Advance(trail[i], tStart, overallMs, gapMs, cap)} :: 0 <= i < |trail| - 1 ==>
         Advance(trail[i], tStart, overallMs, gapMs, cap) == More(trail[i + 1])
  }

  /** A walk whose last turn goes on to `r` walks on to `r`. */
  lemma {:induction false} WalkOn(trail: seq<Rx>, r: Rx, tStart: nat, overallMs: nat, gapMs: nat, cap: nat)
    requires Walk(trail, tStart, overallMs, gapMs, cap) && Kept(r, tStart, cap)
    requires Advance(trail[|trail| - 1], tStart, overallMs, gapMs, cap) == More(r)
    ensures Walk(trail + [r], tStart, overallMs, gapMs, cap)
  {
    var t := trail + [r];
    forall i | 0 <= i < |t|
      ensures Kept(t[i], tStart, cap)
    {
      if i < |trail| {
        assert t[i] == trail[i];
      }
    }
    forall i | 0 <= i < |t| - 1
      ensures Advance(t[i], tStart, overallMs, gapMs, cap) == More(t[i + 1])
    {
      assert t[i] == trail[i];
      if i + 1 < |trail| {
        assert t[i + 1] == trail[i + 1];
      }
    }
  }

  /** A walk whose last turn stops at `e` is a trail ending at `e`. */
  lemma {:induction false} WalkEnds(trail: seq<Rx>, e: RxEnd, tStart: nat, overallMs: nat, gapMs: nat, cap: nat)
    requires Walk(trail, tStart, overallMs, gapMs, cap)
    requires Advance(trail[|trail| - 1], tStart, overallMs, gapMs, cap) == Done(e)
    ensures Trail(trail, e, tStart, overallMs, gapMs, cap)
  {
    forall i | 0 <= i < |trail|
      ensures Advance(trail[i], tStart, overallMs, gapMs, cap) ==
              (if i + 1 < |trail| then More(trail[i + 1]) else Done(e))
    {
    }
  }

  /** A walk whose last state fails the loop guard ends there, on the overall timeout or else on a full buffer. */
  lemma {:induction false} WalkStops(trail: seq<Rx>, tStart: nat, overallMs: nat, gapMs: nat, cap: nat)
    requires Walk(trail, tStart, overallMs, gapMs, cap)
    requires var r := trail[|trail| - 1]; !(r.port.now - tStart < overallMs && |r.captured| < cap)
    ensures var r := trail[|trail| - 1];
            var t := r.port.now - tStart;
            Trail(trail, RxEnd(r.(port := Tick(r.port)), if t >= overallMs then Timeout(t) else Full(t)),
                  tStart, overallMs, gapMs, cap)
  {
    var r := trail[|trail| - 1];
    var t := r.port.now - tStart;
    WalkEnds(trail, RxEnd(r.(port := Tick(r.port)), if t >= overallMs then Timeout(t) else Full(t)),
             tStart, overallMs, gapMs, cap);
  }

  /** A walk whose last state passes the guard, and whose pass goes on to `r2`, walks on to `r2`, nearer the end. */
  lemma {:induction false} WalkNext(trail: seq<Rx>, r2: Rx, tStart: nat, overallMs: nat, gapMs: nat, cap: nat)
    requires Walk(trail, tStart, overallMs, gapMs, cap)
    requires var r := trail[|trail| - 1];
             r.port.now - tStart < overallMs && |r.captured| < cap &&
             PollOnce(r.(port := Tick(r.port)), gapMs, cap) == Next(r2)
    ensures Walk(trail + [r2], tStart, overallMs, gapMs, cap)
    ensures Nearer(r2, trail[|trail| - 1], tStart + overallMs)
  {
    var r := trail[|trail| - 1];
    AdvanceKeeps(r, tStart, overallMs, gapMs, cap);
    AdvanceProgress(r, tStart, overallMs, gapMs, cap);
    WalkOn(trail, r2, tStart, overallMs, gapMs, cap);
  }

  /** A walk whose last state passes the guard, and whose pass hears a silence of `g` ms, ends on that silence. */
  lemma {:induction false} WalkQuiet(trail: seq<Rx>, r2: Rx, g: nat, tStart: nat, overallMs: nat, gapMs: nat, cap: nat)
    requires Walk(trail, tStart, overallMs, gapMs, cap)
    requires var r := trail[|trail| - 1];
             r.port.now - tStart < overallMs && |r.captured| < cap &&
             PollOnce(r.(port := Tick(r.port)), gapMs, cap) == Quiet(r2, g)
    ensures Trail(trail, RxEnd(r2, Silence(trail[|trail| - 1].port.now - tStart, g)), tStart, overallMs, gapMs, cap)
  {
    WalkEnds(trail, RxEnd(r2, Silence(trail[|trail| - 1].port.now - tStart, g)), tStart, overallMs, gapMs, cap);
  }

  /** The loop run from any state of a trail ends where the trail ends. */
  lemma {:induction false} TrailRuns(trail: seq<Rx>, e: RxEnd, i: nat, tStart: nat, overallMs: nat, gapMs: nat, cap: nat)
    requires Trail(trail, e, tStart, overallMs, gapMs, cap) && i < |trail|
    ensures Run(trail[i], tStart, overallMs, gapMs, cap) == e
    decreases |trail| - i
  {
    assert Advance(trail[i], tStart, overallMs, gapMs, cap) ==
           (if i + 1 < |trail| then More(trail[i + 1]) else Done(e));
    if i + 1 < |trail| {
      TrailRuns(trail, e, i + 1, tStart, overallMs, gapMs, cap);
    }
  }

  /** `trail` is the loop states of the capture from port `p`, timed from its start reading, ending at `e`. */
  ghost predicate Captures(p: Port, trail: seq<Rx>, e: RxEnd, overallMs: nat, gapMs: nat, cap: nat) {
    Trail(trail, e, p.now, overallMs, gapMs, cap) && trail[0] == Rx(Tick(p), [], false, 0, 0)
  }

  /** A trail that starts as the capture from `p` starts is that capture: `CaptureRun(p)` ends where the trail ends. */
  lemma {:induction false} TrailCapture(p: Port, trail: seq<Rx>, e: RxEnd, overallMs: nat, gapMs: nat, cap: nat)
    requires Captures(p, trail, e, overallMs, gapMs, cap)
    ensures CaptureRun(p, overallMs, gapMs, cap) == e
  {
    TrailRuns(trail, e, 0, p.now, overallMs, gapMs, cap);
  }

  /** Where a trail ends, the capture ends as `Ends` says. */
  lemma {:induction false} TrailEnds(trail: seq<Rx>, e: RxEnd, tStart: nat, overallMs: nat, gapMs: nat, cap: nat)
    requires Trail(trail, e, tStart, overallMs, gapMs, cap)
    ensures Ends(e, tStart, overallMs, gapMs, cap)
  {
    var last := |trail| - 1;
    assert Kept(trail[last], tStart, cap);
    AdvanceKeeps(trail[last], tStart, overallMs, gapMs, cap);
    assert Advance(trail[last], tStart, overallMs, gapMs, cap) == Done(e);
  }

  // ---------------------------------------------------------------------
  // How the loop treats a reply, with the clock moved only by the waits

  /** `k` polls that land nothing. */
  function NoBytes(k: nat): (s: seq<seq<byte>>)
    ensures |s| == k && forall i :: 0 <= i < k ==> s[i] == []
  {
    seq(k, _ => [])
  }

  /** The next `k` polls land no bytes. */
  ghost predicate Silent(arrivals: seq<seq<byte>>, k: nat) {
    forall i :: 0 <= i < k && i < |arrivals| ==> arrivals[i] == []
  }

  /** The batches still to arrive after `k` polls. */
  function After(arrivals: seq<seq<byte>>, k: nat): seq<seq<byte>> {
    if k <= |arrivals| then arrivals[k..] else []
  }

  /** The loop state after `k` idle polls: no bytes, `k` more milliseconds, `k` more waits. */
  function Idle(r: Rx, k: nat): Rx {
    r.(port := Port([], After(r.port.arrivals, k), r.port.now + k, []), waited := r.waited + k)
  }

  lemma {:induction false} AfterNoBytes(k: nat, rest: seq<seq<byte>>)
    ensures Silent(NoBytes(k) + rest, k) && After(NoBytes(k) + rest, k) == rest
  {
    assert (NoBytes(k) + rest)[k..] == rest;
  }

  lemma {:induction false} SilentAfter(arrivals: seq<seq<byte>>, k: nat)
    requires k > 0 && Silent(arrivals, k)
    ensures Silent(After(arrivals, 1), k - 1)
  {
    forall i | 0 <= i < k - 1 && i < |After(arrivals, 1)|
      ensures After(arrivals, 1)[i] == []
    {
      assert After(arrivals, 1)[i] == arrivals[i + 1];
    }
  }

  lemma {:induction false} IdleIdle(r: Rx, k: nat)
    ensures Idle(Idle(r, 1), k) == Idle(r, k + 1)
  {
    assert After(After(r.port.arrivals, 1), k) == After(r.port.arrivals, k + 1);
  }

  /** An idle poll: nothing lands, and the capture waits 1 ms. */
  lemma {:induction false} IdlePass(r: Rx, tStart: nat, overallMs: nat, gapMs: nat, cap: nat)
    requires tStart <= r.port.now < tStart + overallMs && |r.captured| < cap
    requires r.port.fifo == [] && r.port.drift == [] && Silent(r.port.arrivals, 1)
    requires r.started ==> r.lastByte <= r.port.now < r.lastByte + gapMs
    ensures Run(r, tStart, overallMs, gapMs, cap) == Run(Idle(r, 1), tStart, overallMs, gapMs, cap)
  {
    var p := Land(r.port);
    assert p == Port([], After(r.port.arrivals, 1), r.port.now, []) by {
      if r.port.arrivals != [] {
        assert r.port.arrivals[0] == [];
      }
    }
  }

  /**
   * Polls that land nothing, all before the deadline and, once bytes have
   * started, before the inter-byte timeout is reached, only wait: the
   * capture goes on `k` ms later with nothing else changed.
   */
  lemma {:induction false} RunIdle(r: Rx, k: nat, tStart: nat, overallMs: nat, gapMs: nat, cap: nat)
    requires tStart <= r.port.now && |r.captured| < cap
    requires r.port.fifo == [] && r.port.drift == [] && Silent(r.port.arrivals, k)
    requires r.port.now + k <= tStart + overallMs
    requires r.started ==> r.lastByte <= r.port.now && r.port.now + k <= r.lastByte + gapMs
    ensures Run(r, tStart, overallMs, gapMs, cap) == Run(Idle(r, k), tStart, overallMs, gapMs, cap)
    decreases k
  {
    if k == 0 {
      assert Idle(r, 0) == r by {
        assert After(r.port.arrivals, 0) == r.port.arrivals;
      }
    } else {
      var r1 := Idle(r, 1);
      assert Run(r, tStart, overallMs, gapMs, cap) == Run(r1, tStart, overallMs, gapMs, cap) by {
        IdlePass(r, tStart, overallMs, gapMs, cap);
      }
      assert Run(r1, tStart, overallMs, gapMs, cap) == Run(Idle(r, k), tStart, overallMs, gapMs, cap) by {
        SilentAfter(r.port.arrivals, k);
        RunIdle(r1, k - 1, tStart, overallMs, gapMs, cap);
        IdleIdle(r, k - 1);
      }
    }
  }

  /** Where the capture stands once batch `b` is taken, with `rest` still to arrive. */
  function Taken(r: Rx, b: seq<byte>, rest: seq<seq<byte>>): Rx {
    Rx(Port([], rest, r.port.now, []), r.captured + b, true, r.port.now, r.waited)
  }

  /** A poll that lands a batch with room for all of it takes it whole, and the clock reads the same. */
  lemma {:induction false} BurstPass(r: Rx, b: seq<byte>, rest: seq<seq<byte>>, tStart: nat, overallMs: nat, gapMs: nat, cap: nat)
    requires tStart <= r.port.now < tStart + overallMs
    requires r.port == Port([], [b] + rest, r.port.now, [])
    requires r.started ==> r.lastByte <= r.port.now
    requires b != [] && |r.captured| + |b| <= cap
    ensures Run(r, tStart, overallMs, gapMs, cap) == Run(Taken(r, b, rest), tStart, overallMs, gapMs, cap)
  {
    var p := Land(r.port);
    assert p.fifo == b && p.arrivals == rest;
    assert p.fifo[..|b|] == b && p.fifo[|b|..] == [];
  }

  lemma {:induction false} SilentShift(arrivals: seq<seq<byte>>, m: nat)
    requires Silent(arrivals, m + 1)
    ensures Silent(After(arrivals, m), 1) && After(After(arrivals, m), 1) == After(arrivals, m + 1)
  {
    if m < |arrivals| {
      assert After(arrivals, m)[0] == arrivals[m];
    }
  }

  /** A poll that lands nothing once the line has been silent for `gapMs` since the last batch ends the capture. */
  lemma {:induction false} SilencePass(r: Rx, tStart: nat, overallMs: nat, gapMs: nat, cap: nat)
    requires tStart <= r.port.now < tStart + overallMs && |r.captured| < cap
    requires r.port.fifo == [] && r.port.drift == [] && Silent(r.port.arrivals, 1)
    requires r.started && r.lastByte + gapMs == r.port.now
    ensures Run(r, tStart, overallMs, gapMs, cap) ==
            RxEnd(r.(port := Port([], After(r.port.arrivals, 1), r.port.now, [])), Silence(r.port.now - tStart, gapMs))
  {
    var p := Land(r.port);
    assert p == Port([], After(r.port.arrivals, 1), r.port.now, []) by {
      if r.port.arrivals != [] {
        assert r.port.arrivals[0] == [];
      }
    }
  }

  /**
   * Once bytes have started, the first poll at which the line has been
   * silent for `gapMs` since the last batch ends the capture with a silence
   * stop; whatever would land later stays on the line.
   */
  lemma {:induction false} RunSilence(r: Rx, tStart: nat, overallMs: nat, gapMs: nat, cap: nat)
    requires tStart <= r.port.now && |r.captured| < cap
    requires r.port.fifo == [] && r.port.drift == []
    requires r.started && r.lastByte <= r.port.now <= r.lastByte + gapMs
    requires r.lastByte + gapMs < tStart + overallMs
    requires Silent(r.port.arrivals, r.lastByte + gapMs - r.port.now + 1)
    ensures var m := r.lastByte + gapMs - r.port.now;
            Run(r, tStart, overallMs, gapMs, cap) ==
            RxEnd(Rx(Port([], After(r.port.arrivals, m + 1), r.lastByte + gapMs, []),
                     r.captured, true, r.lastByte, r.waited + m),
                  Silence(r.lastByte + gapMs - tStart, gapMs))
  {
    var m := r.lastByte + gapMs - r.port.now;
    assert Silent(r.port.arrivals, m) by {
      assert Silent(r.port.arrivals, m + 1);
    }
    var r2 := Idle(r, m);
    var e := RxEnd(Rx(Port([], After(r.port.arrivals, m + 1), r.lastByte + gapMs, []),
                      r.captured, true, r.lastByte, r.waited + m),
                   Silence(r.lastByte + gapMs - tStart, gapMs));
    assert Run(r, tStart, overallMs, gapMs, cap) == Run(r2, tStart, overallMs, gapMs, cap) by {
      RunIdle(r, m, tStart, overallMs, gapMs, cap);
    }
    assert Run(r2, tStart, overallMs, gapMs, cap) == e by {
      SilentShift(r.port.arrivals, m);
      SilencePass(r2, tStart, overallMs, gapMs, cap);
      assert RxEnd(r2.(port := Port([], After(r2.port.arrivals, 1), r2.port.now, [])),
                   Silence(r2.port.now - tStart, gapMs)) == e;
    }
  }

  /** Where the capture ends once batch `b` overflows it: the buffer is full and the rest of `b` stays queued. */
  function Spilled(r: Rx, b: seq<byte>, rest: seq<seq<byte>>, tStart: nat, cap: nat): RxEnd
    requires tStart <= r.port.now && |r.captured| <= cap <= |r.captured| + |b|
  {
    var room := cap - |r.captured|;
    RxEnd(Rx(Port(b[room..], rest, r.port.now, []), r.captured + b[..room], true, r.port.now, r.waited),
          Full(r.port.now - tStart))
  }

  /** A batch that does not fit fills the buffer; the rest of it stays queued, and capture stops as full. */
  lemma {:induction false} RunOverflow(r: Rx, b: seq<byte>, rest: seq<seq<byte>>, tStart: nat, overallMs: nat, gapMs: nat, cap: nat)
    requires tStart <= r.port.now < tStart + overallMs
    requires r.port == Port([], [b] + rest, r.port.now, [])
    requires r.started ==> r.lastByte <= r.port.now
    requires |r.captured| < cap < |r.captured| + |b|
    ensures Run(r, tStart, overallMs, gapMs, cap) == Spilled(r, b, rest, tStart, cap)
  {
    var p := Land(r.port);
    assert p.fifo == b && p.arrivals == rest;
  }

  /** A full buffer ends the capture at the next guard, before the deadline, with nothing else taken. */
  lemma {:induction false} RunFull(r: Rx, tStart: nat, overallMs: nat, gapMs: nat, cap: nat)
    requires tStart <= r.port.now < tStart + overallMs && |r.captured| == cap
    requires r.started ==> r.lastByte <= r.port.now
    ensures Run(r, tStart, overallMs, gapMs, cap) == RxEnd(r.(port := Tick(r.port)), Full(r.port.now - tStart))
  {
  }

  /** With nothing arriving, the capture waits out the overall timeout, 1 ms at a time, and stops on it. */
  lemma {:induction false} CaptureTimesOut(p: Port, overallMs: nat, gapMs: nat, cap: nat)
    requires p.fifo == [] && p.drift == [] && cap > 0
    requires Silent(p.arrivals, overallMs)
    ensures CaptureRun(p, overallMs, gapMs, cap) ==
            RxEnd(Rx(Port([], After(p.arrivals, overallMs), p.now + overallMs, []), [], false, 0, overallMs),
                  Timeout(overallMs))
  {
    var r := Rx(p, [], false, 0, 0);
    assert Tick(p) == p;
    RunIdle(r, overallMs, p.now, overallMs, gapMs, cap);
    assert Idle(r, overallMs) == Rx(Port([], After(p.arrivals, overallMs), p.now + overallMs, []), [], false, 0, overallMs);
  }

  /** A reply that starts `k` ms into the capture: the capture waits `k` ms for its first batch. */
  lemma {:induction false} ReplyStart(p: Port, k: nat, later: seq<seq<byte>>, overallMs: nat, gapMs: nat, cap: nat)
    requires p.fifo == [] && p.drift == [] && p.arrivals == NoBytes(k) + later
    requires k < overallMs && cap > 0
    ensures CaptureRun(p, overallMs, gapMs, cap) ==
            Run(Rx(Port([], later, p.now + k, []), [], false, 0, k), p.now, overallMs, gapMs, cap)
  {
    var r := Rx(p, [], false, 0, 0);
    assert Tick(p) == p;
    AfterNoBytes(k, later);
    RunIdle(r, k, p.now, overallMs, gapMs, cap);
    assert Idle(r, k) == Rx(Port([], later, p.now + k, []), [], false, 0, k);
  }

  /** Where the capture ends once it stops on a silence of `gapMs` after the batch it has just taken. */
  function Hushed(r: Rx, rest: seq<seq<byte>>, tStart: nat, gapMs: nat): RxEnd
    requires tStart <= r.port.now
  {
    RxEnd(Rx(Port([], rest, r.port.now + gapMs, []), r.captured, true, r.port.now, r.waited + gapMs),
          Silence(r.port.now + gapMs - tStart, gapMs))
  }

  /** `gapMs` + 1 silent polls right after a batch end the capture on the silence. */
  lemma {:induction false} ReplyEnd(r: Rx, rest: seq<seq<byte>>, tStart: nat, overallMs: nat, gapMs: nat, cap: nat)
    requires r.port == Port([], NoBytes(gapMs + 1) + rest, r.port.now, [])
    requires r.started && r.lastByte == r.port.now
    requires tStart <= r.port.now && r.port.now + gapMs < tStart + overallMs && |r.captured| < cap
    ensures Run(r, tStart, overallMs, gapMs, cap) == Hushed(r, rest, tStart, gapMs)
  {
    RunSilence(r, tStart, overallMs, gapMs, cap);
    HushedAfter(r, rest, tStart, gapMs);
  }

  lemma {:induction false} HushedAfter(r: Rx, rest: seq<seq<byte>>, tStart: nat, gapMs: nat)
    requires r.port.arrivals == NoBytes(gapMs + 1) + rest
    requires r.lastByte == r.port.now && tStart <= r.port.now
    ensures RxEnd(Rx(Port([], After(r.port.arrivals, gapMs + 1), r.lastByte + gapMs, []),
                     r.captured, true, r.lastByte, r.waited + gapMs),
                  Silence(r.lastByte + gapMs - tStart, gapMs)) ==
            Hushed(r, rest, tStart, gapMs)
  {
    AfterNoBytes(gapMs + 1, rest);
  }

  // ---------------------------------------------------------------------
  // A reply as pieces: a pause of idle polls, then a batch with bytes

  datatype Piece = Piece(pause: nat, batch: seq<byte>)

  /** The arrival batches of `pieces`, one poll per idle millisecond and one per batch. */
  function Line(pieces: seq<Piece>): seq<seq<byte>>
    decreases |pieces|
  {
    if pieces == [] then [] else NoBytes(pieces[0].pause) + ([pieces[0].batch] + Line(pieces[1..]))
  }

  /** The bytes of `pieces`, in order. */
  function Bytes(pieces: seq<Piece>): seq<byte>
    decreases |pieces|
  {
    if pieces == [] then [] else pieces[0].batch + Bytes(pieces[1..])
  }

  /** The idle milliseconds of `pieces`. */
  function Span(pieces: seq<Piece>): nat
    decreases |pieces|
  {
    if pieces == [] then 0 else pieces[0].pause + Span(pieces[1..])
  }

  /** Every batch carries bytes and no pause reaches past `gapMs` ms. */
  ghost predicate Steady(pieces: seq<Piece>, gapMs: nat) {
    forall i :: 0 <= i < |pieces| ==> pieces[i].batch != [] && pieces[i].pause <= gapMs
  }

  lemma {:induction false} EmptyPrefix<T>(s: seq<T>)
    ensures [] + s == s
  {
  }

  lemma {:induction false} LineCons(pieces: seq<Piece>, rest: seq<seq<byte>>)
    requires pieces != []
    ensures Line(pieces) + rest ==
            NoBytes(pieces[0].pause) + ([pieces[0].batch] + (Line(pieces[1..]) + rest))
    ensures |Bytes(pieces)| == |pieces[0].batch| + |Bytes(pieces[1..])|
  {
    var q := pieces[0];
    Assoc(NoBytes(q.pause), [q.batch] + Line(pieces[1..]), rest);
    Assoc([q.batch], Line(pieces[1..]), rest);
  }

  lemma {:induction false} SteadyTail(pieces: seq<Piece>, gapMs: nat)
    requires pieces != [] && Steady(pieces, gapMs)
    ensures pieces[0].batch != [] && pieces[0].pause <= gapMs && Steady(pieces[1..], gapMs)
  {
    var more := pieces[1..];
    forall i | 0 <= i < |more|
      ensures more[i].batch != [] && more[i].pause <= gapMs
    {
      assert more[i] == pieces[i + 1];
    }
  }

  /** Where the capture stands once piece `q` is taken, with `later` still to arrive. */
  function Took(r: Rx, q: Piece, later: seq<seq<byte>>): Rx {
    Rx(Port([], later, r.port.now + q.pause, []), r.captured + q.batch, true, r.port.now + q.pause, r.waited + q.pause)
  }

  /** Where the capture stands once all of `pieces` are taken, with `rest` still to arrive. */
  function Whole(r: Rx, pieces: seq<Piece>, rest: seq<seq<byte>>): Rx {
    Rx(Port([], rest, r.port.now + Span(pieces), []), r.captured + Bytes(pieces),
       r.started || pieces != [], if pieces == [] then r.lastByte else r.port.now + Span(pieces),
       r.waited + Span(pieces))
  }

  /** One piece: its pause is waited out, then its batch is taken whole. */
  lemma {:induction false} PieceStep(r: Rx, q: Piece, later: seq<seq<byte>>,
                                     tStart: nat, overallMs: nat, gapMs: nat, cap: nat)
    requires r.port == Port([], NoBytes(q.pause) + ([q.batch] + later), r.port.now, [])
    requires q.batch != [] && q.pause <= gapMs && |r.captured| + |q.batch| <= cap
    requires r.started ==> r.lastByte == r.port.now
    requires tStart <= r.port.now && r.port.now + q.pause < tStart + overallMs
    ensures Run(r, tStart, overallMs, gapMs, cap) == Run(Took(r, q, later), tStart, overallMs, gapMs, cap)
  {
    AfterNoBytes(q.pause, [q.batch] + later);
    RunIdle(r, q.pause, tStart, overallMs, gapMs, cap);
    BurstPass(Idle(r, q.pause), q.batch, later, tStart, overallMs, gapMs, cap);
    TookIdle(r, q, later);
  }

  lemma {:induction false} TookIdle(r: Rx, q: Piece, later: seq<seq<byte>>)
    ensures Taken(Idle(r, q.pause), q.batch, later) == Took(r, q, later)
  {
  }

  /** The first of `pieces` is taken, and what remains meets the conditions of `RunPieces` again. */
  lemma {:induction false} PiecesHead(r: Rx, pieces: seq<Piece>, rest: seq<seq<byte>>,
                                      tStart: nat, overallMs: nat, gapMs: nat, cap: nat)
    requires r.port == Port([], Line(pieces) + rest, r.port.now, [])
    requires pieces != [] && Steady(pieces, gapMs) && |r.captured| + |Bytes(pieces)| <= cap
    requires r.started ==> r.lastByte == r.port.now
    requires tStart <= r.port.now && r.port.now + Span(pieces) < tStart + overallMs
    ensures var r2 := Took(r, pieces[0], Line(pieces[1..]) + rest);
            && Run(r, tStart, overallMs, gapMs, cap) == Run(r2, tStart, overallMs, gapMs, cap)
            && r2.port == Port([], Line(pieces[1..]) + rest, r2.port.now, [])
            && Steady(pieces[1..], gapMs) && |r2.captured| + |Bytes(pieces[1..])| <= cap
            && (r2.started ==> r2.lastByte == r2.port.now)
            && tStart <= r2.port.now && r2.port.now + Span(pieces[1..]) < tStart + overallMs
  {
    LineCons(pieces, rest);
    SteadyTail(pieces, gapMs);
    PieceStep(r, pieces[0], Line(pieces[1..]) + rest, tStart, overallMs, gapMs, cap);
  }

  lemma {:induction false} WholeCons(r: Rx, pieces: seq<Piece>, rest: seq<seq<byte>>)
    requires pieces != []
    ensures Whole(Took(r, pieces[0], Line(pieces[1..]) + rest), pieces[1..], rest) == Whole(r, pieces, rest)
  {
    Assoc(r.captured, pieces[0].batch, Bytes(pieces[1..]));
  }

  /**
   * Pieces whose batches carry bytes, fit the buffer and land before the
   * deadline, with no pause longer than `gapMs`, are captured whole and in
   * order; the clock moves by their pauses alone.
   */
  lemma {:induction false} RunPieces(r: Rx, pieces: seq<Piece>, rest: seq<seq<byte>>,
                                     tStart: nat, overallMs: nat, gapMs: nat, cap: nat)
    requires r.port == Port([], Line(pieces) + rest, r.port.now, [])
    requires Steady(pieces, gapMs) && |r.captured| + |Bytes(pieces)| <= cap
    requires r.started ==> r.lastByte == r.port.now
    requires tStart <= r.port.now && r.port.now + Span(pieces) < tStart + overallMs
    ensures Run(r, tStart, overallMs, gapMs, cap) == Run(Whole(r, pieces, rest), tStart, overallMs, gapMs, cap)
    decreases |pieces|
  {
    if pieces == [] {
      assert Whole(r, pieces, rest) == r by {
        EmptyPrefix(rest);
      }
    } else {
      PiecesHead(r, pieces, rest, tStart, overallMs, gapMs, cap);
      RunPieces(Took(r, pieces[0], Line(pieces[1..]) + rest), pieces[1..], rest, tStart, overallMs, gapMs, cap);
      WholeCons(r, pieces, rest);
    }
  }

  /** Pieces as above, then `gapMs` + 1 silent polls: the capture ends on that silence with all of the bytes. */
  lemma {:induction false} PiecesThenSilence(r: Rx, pieces: seq<Piece>, rest: seq<seq<byte>>,
                                             tStart: nat, overallMs: nat, gapMs: nat, cap: nat)
    requires r.port == Port([], Line(pieces) + (NoBytes(gapMs + 1) + rest), r.port.now, [])
    requires pieces != [] && Steady(pieces, gapMs) && |r.captured| + |Bytes(pieces)| < cap
    requires r.started ==> r.lastByte == r.port.now
    requires tStart <= r.port.now && r.port.now + Span(pieces) + gapMs < tStart + overallMs
    ensures Run(r, tStart, overallMs, gapMs, cap) ==
            Hushed(Whole(r, pieces, NoBytes(gapMs + 1) + rest), rest, tStart, gapMs)
  {
    RunPieces(r, pieces, NoBytes(gapMs + 1) + rest, tStart, overallMs, gapMs, cap);
    ReplyEnd(Whole(r, pieces, NoBytes(gapMs + 1) + rest), rest, tStart, overallMs, gapMs, cap);
  }

  lemma {:induction false} HushedWhole(p: Port, k: nat, pieces: seq<Piece>, rest: seq<seq<byte>>, gapMs: nat)
    requires pieces != []
    ensures var r1 := Rx(Port([], Line(pieces) + (NoBytes(gapMs + 1) + rest), p.now + k, []), [], false, 0, k);
            Hushed(Whole(r1, pieces, NoBytes(gapMs + 1) + rest), rest, p.now, gapMs) ==
            RxEnd(Rx(Port([], rest, p.now + k + Span(pieces) + gapMs, []), Bytes(pieces), true,
                     p.now + k + Span(pieces), k + Span(pieces) + gapMs),
                  Silence(k + Span(pieces) + gapMs, gapMs))
  {
    EmptyPrefix(Bytes(pieces));
  }

  /**
   * A reply that starts arriving `k` ms into the capture, as pieces whose
   * batches carry bytes and fit the buffer with no pause longer than the
   * inter-byte timeout, followed by a silence of the inter-byte timeout
   * before the overall deadline, is captured whole: the capture stops on
   * that silence, and every batch after it stays on the line.
   */
  lemma {:induction false} CaptureWholeReply(p: Port, k: nat, pieces: seq<Piece>, rest: seq<seq<byte>>,
                                             overallMs: nat, gapMs: nat, cap: nat)
    requires p.fifo == [] && p.drift == []
    requires p.arrivals == NoBytes(k) + Line(pieces) + NoBytes(gapMs + 1) + rest
    requires pieces != [] && Steady(pieces, gapMs) && |Bytes(pieces)| < cap
    requires k + Span(pieces) + gapMs < overallMs
    ensures CaptureRun(p, overallMs, gapMs, cap) ==
            RxEnd(Rx(Port([], rest, p.now + k + Span(pieces) + gapMs, []), Bytes(pieces), true,
                     p.now + k + Span(pieces), k + Span(pieces) + gapMs),
                  Silence(k + Span(pieces) + gapMs, gapMs))
  {
    ReplyArrivals(p.arrivals, NoBytes(k), Line(pieces), NoBytes(gapMs + 1), rest);
    ReplyStart(p, k, Line(pieces) + (NoBytes(gapMs + 1) + rest), overallMs, gapMs, cap);
    PiecesThenSilence(Rx(Port([], Line(pieces) + (NoBytes(gapMs + 1) + rest), p.now + k, []), [], false, 0, k),
                      pieces, rest, p.now, overallMs, gapMs, cap);
    HushedWhole(p, k, pieces, rest, gapMs);
  }

  lemma {:induction false} ReplyArrivals<T>(arrivals: seq<T>, head: seq<T>, line: seq<T>, mid: seq<T>, rest: seq<T>)
    requires arrivals == head + line + mid + rest
    ensures arrivals == head + (line + (mid + rest))
  {
    Assoc(head + line, mid, rest);
    Assoc(head, line, mid + rest);
  }

  /**
   * A reply that starts arriving `k` ms into the capture as pieces that fit
   * the buffer, then one more batch `q` that does not, before the overall
   * deadline and with no pause longer than the inter-byte timeout: the buffer
   * is filled, the capture stops as full, and the part of `q` that did not
   * fit stays queued with every later batch still on the line.
   */
  lemma {:induction false} CaptureOverflow(p: Port, k: nat, pieces: seq<Piece>, q: Piece, rest: seq<seq<byte>>,
                                           overallMs: nat, gapMs: nat, cap: nat)
    requires p.fifo == [] && p.drift == []
    requires p.arrivals == NoBytes(k) + Line(pieces) + NoBytes(q.pause) + ([q.batch] + rest)
    requires pieces != [] && Steady(pieces, gapMs) && q.pause <= gapMs
    requires |Bytes(pieces)| < cap < |Bytes(pieces)| + |q.batch|
    requires k + Span(pieces) + q.pause < overallMs
    ensures var room := cap - |Bytes(pieces)|;
            CaptureRun(p, overallMs, gapMs, cap) ==
            RxEnd(Rx(Port(q.batch[room..], rest, p.now + k + Span(pieces) + q.pause, []),
                     Bytes(pieces) + q.batch[..room], true, p.now + k + Span(pieces) + q.pause,
                     k + Span(pieces) + q.pause),
                  Full(k + Span(pieces) + q.pause))
  {
    var tail := NoBytes(q.pause) + ([q.batch] + rest);
    var r1 := Rx(Port([], Line(pieces) + tail, p.now + k, []), [], false, 0, k);
    ReplyArrivals(p.arrivals, NoBytes(k), Line(pieces), NoBytes(q.pause), [q.batch] + rest);
    ReplyStart(p, k, Line(pieces) + tail, overallMs, gapMs, cap);
    RunPieces(r1, pieces, tail, p.now, overallMs, gapMs, cap);
    AfterNoBytes(q.pause, [q.batch] + rest);
    RunIdle(Whole(r1, pieces, tail), q.pause, p.now, overallMs, gapMs, cap);
    RunOverflow(Idle(Whole(r1, pieces, tail), q.pause), q.batch, rest, p.now, overallMs, gapMs, cap);
    SpilledWhole(p, k, pieces, q, rest, cap);
  }

  lemma {:induction false} SpilledWhole(p: Port, k: nat, pieces: seq<Piece>, q: Piece, rest: seq<seq<byte>>, cap: nat)
    requires pieces != [] && |Bytes(pieces)| < cap < |Bytes(pieces)| + |q.batch|
    ensures var tail := NoBytes(q.pause) + ([q.batch] + rest);
            var r1 := Rx(Port([], Line(pieces) + tail, p.now + k, []), [], false, 0, k);
            var room := cap - |Bytes(pieces)|;
            Spilled(Idle(Whole(r1, pieces, tail), q.pause), q.batch, rest, p.now, cap) ==
            RxEnd(Rx(Port(q.batch[room..], rest, p.now + k + Span(pieces) + q.pause, []),
                     Bytes(pieces) + q.batch[..room], true, p.now + k + Span(pieces) + q.pause,
                     k + Span(pieces) + q.pause),
                  Full(k + Span(pieces) + q.pause))
  {
    EmptyPrefix(Bytes(pieces));
  }

  // ---------------------------------------------------------------------
  // The same three ends, for a capture known by its trail

  /** A capture from `p`, known by its trail, of a whole reply ends as `CaptureWholeReply` says. */
  lemma {:induction false} TrailWholeReply(p: Port, trail: seq<Rx>, e: RxEnd, k: nat, pieces: seq<Piece>,
                                           rest: seq<seq<byte>>, overallMs: nat, gapMs: nat, cap: nat)
    requires Captures(p, trail, e, overallMs, gapMs, cap)
    requires p.fifo == [] && p.drift == []
    requires p.arrivals == NoBytes(k) + Line(pieces) + NoBytes(gapMs + 1) + rest
    requires pieces != [] && Steady(pieces, gapMs) && |Bytes(pieces)| < cap
    requires k + Span(pieces) + gapMs < overallMs
    ensures e == RxEnd(Rx(Port([], rest, p.now + k + Span(pieces) + gapMs, []), Bytes(pieces), true,
                          p.now + k + Span(pieces), k + Span(pieces) + gapMs),
                       Silence(k + Span(pieces) + gapMs, gapMs))
  {
    TrailCapture(p, trail, e, overallMs, gapMs, cap);
    CaptureWholeReply(p, k, pieces, rest, overallMs, gapMs, cap);
  }

  /** A capture from `p`, known by its trail, of a reply too long for the buffer ends as `CaptureOverflow` says. */
  lemma {:induction false} TrailOverflow(p: Port, trail: seq<Rx>, e: RxEnd, k: nat, pieces: seq<Piece>, q: Piece,
                                         rest: seq<seq<byte>>, overallMs: nat, gapMs: nat, cap: nat)
    requires Captures(p, trail, e, overallMs, gapMs, cap)
    requires p.fifo == [] && p.drift == []
    requires p.arrivals == NoBytes(k) + Line(pieces) + NoBytes(q.pause) + ([q.batch] + rest)
    requires pieces != [] && Steady(pieces, gapMs) && q.pause <= gapMs
    requires |Bytes(pieces)| < cap < |Bytes(pieces)| + |q.batch|
    requires k + Span(pieces) + q.pause < overallMs
    ensures var room := cap - |Bytes(pieces)|;
            e == RxEnd(Rx(Port(q.batch[room..], rest, p.now + k + Span(pieces) + q.pause, []),
                          Bytes(pieces) + q.batch[..room], true, p.now + k + Span(pieces) + q.pause,
                          k + Span(pieces) + q.pause),
                       Full(k + Span(pieces) + q.pause))
  {
    TrailCapture(p, trail, e, overallMs, gapMs, cap);
    CaptureOverflow(p, k, pieces, q, rest, overallMs, gapMs, cap);
  }

  /** A capture from `p`, known by its trail, that hears nothing ends as `CaptureTimesOut` says. */
  lemma {:induction false} TrailTimesOut(p: Port, trail: seq<Rx>, e: RxEnd, overallMs: nat, gapMs: nat, cap: nat)
    requires Captures(p, trail, e, overallMs, gapMs, cap)
    requires p.fifo == [] && p.drift == [] && cap > 0
    requires Silent(p.arrivals, overallMs)
    ensures e == RxEnd(Rx(Port([], After(p.arrivals, overallMs), p.now + overallMs, []), [], false, 0, overallMs),
                       Timeout(overallMs))
  {
    TrailCapture(p, trail, e, overallMs, gapMs, cap);
    CaptureTimesOut(p, overallMs, gapMs, cap);
  }
}
