/**
 * The microcontroller environment the transport runs on: one UART, a
 * millisecond clock and the digital pins. None of it is part of the
 * repository; it stands for the Arduino calls the transport makes
 * (`available`, `read`, `write`, `flush`, `millis`, `delay`,
 * `delayMicroseconds`, `pinMode`, `digitalWrite`).
 *
 * The world outside is given up front as oracles:
 *  - `arrivals`: batches of bytes the line will deliver; each call of
 *    `Available` first lands the next batch (if any) in the receive queue;
 *  - `drift`: how far the clock moves on each successive `Millis` reading
 *    (0 once the sequence is used up); `Delay(ms)` moves it by `ms`.
 * Every action that drives the line or takes time is appended to `trace`
 * (pin changes, writes, flushes, waits), so that the order of direction
 * changes, writes and waits can be stated; reads are described by `fifo`.
 */
module Hardware {

  import opened Types

  datatype Event =
    | PinModeOutput(pin: int)
    | PinWrite(pin: int, high: bool)
    | SerialWrite(b: byte)
    | SerialFlush
    | WaitMs(ms: nat)
    | WaitUs(us: nat)

  /** All batches, concatenated in order. */
  function Flatten(batches: seq<seq<byte>>): (r: seq<byte>)
    decreases |batches|
  {
    if batches == [] then []
    else Flatten(batches[..|batches| - 1]) + batches[|batches| - 1]
  }

  lemma FlattenSnoc(batches: seq<seq<byte>>, b: seq<byte>)
    ensures Flatten(batches + [b]) == Flatten(batches) + b
  {
    assert (batches + [b])[..|batches|] == batches;
  }

  lemma {:induction false} FlattenAppend(a: seq<seq<byte>>, b: seq<seq<byte>>)
    ensures Flatten(a + b) == Flatten(a) + Flatten(b)
    decreases |b|
  {
    if b == [] {
      assert a + b == a;
    } else {
      var b', x := b[..|b| - 1], b[|b| - 1];
      assert b == b' + [x];
      assert a + b == (a + b') + [x];
      FlattenAppend(a, b');
      FlattenSnoc(a + b', x);
      FlattenSnoc(b', x);
      Assoc(Flatten(a), Flatten(b'), x);
    }
  }

  /** Delivering a prefix of the batches delivers a prefix of the bytes. */
  lemma {:induction false} FlattenPrefix(a: seq<seq<byte>>, b: seq<seq<byte>>)
    ensures Flatten(a) <= Flatten(a + b)
    decreases |b|
  {
    if b != [] {
      var b' := b[..|b| - 1];
      FlattenPrefix(a, b');
      assert a + b == (a + b') + [b[|b| - 1]];
      FlattenSnoc(a + b', b[|b| - 1]);
      var f, g, x := Flatten(a), Flatten(a + b'), b[|b| - 1];
      assert f == g[..|f|];
      assert (g + x)[..|f|] == f;
    } else {
      assert a + b == a;
    }
  }

  class Mcu {
    var fifo: seq<byte>
    var arrivals: seq<seq<byte>>
    var now: nat
    var drift: seq<nat>
    var level: map<int, bool>
    var outputs: set<int>
    var trace: seq<Event>

    constructor (arrivals: seq<seq<byte>>, start: nat, drift: seq<nat>)
      ensures this.fifo == [] && this.arrivals == arrivals
      ensures this.now == start && this.drift == drift
      ensures this.level == map[] && this.outputs == {} && this.trace == []
    {
      this.fifo := [];
      this.arrivals := arrivals;
      this.now := start;
      this.drift := drift;
      this.level := map[];
      this.outputs := {};
      this.trace := [];
    }

    method PinMode(pin: int)
      modifies this`outputs, this`trace
      ensures outputs == old(outputs) + {pin}
      ensures trace == old(trace) + [PinModeOutput(pin)]
    {
      outputs := outputs + {pin};
      trace := trace + [PinModeOutput(pin)];
    }

    method DigitalWrite(pin: int, high: bool)
      modifies this`level, this`trace
      ensures level == old(level)[pin := high]
      ensures trace == old(trace) + [PinWrite(pin, high)]
    {
      level := level[pin := high];
      trace := trace + [PinWrite(pin, high)];
    }

    /** Lands the next arrival batch, then reports how many bytes are queued. */
    method Available() returns (n: int)
      modifies this`fifo, this`arrivals
      ensures old(arrivals) == [] ==> fifo == old(fifo) && arrivals == []
      ensures old(arrivals) != [] ==>
                fifo == old(fifo) + old(arrivals)[0] && arrivals == old(arrivals)[1..]
      ensures n == |fifo|
    {
      if arrivals != [] {
        fifo := fifo + arrivals[0];
        arrivals := arrivals[1..];
      }
      n := |fifo|;
    }

    /** The next queued byte, or -1 when the queue is empty. */
    method Read() returns (c: int)
      modifies this`fifo
      ensures old(fifo) == [] ==> c == -1 && fifo == []
      ensures old(fifo) != [] ==> c == old(fifo)[0] as int && fifo == old(fifo)[1..]
    {
      if fifo == [] {
        c := -1;
      } else {
        c := fifo[0] as int;
        fifo := fifo[1..];
      }
    }

    method Write(b: byte)
      modifies this`trace
      ensures trace == old(trace) + [SerialWrite(b)]
    {
      trace := trace + [SerialWrite(b)];
    }

    method Flush()
      modifies this`trace
      ensures trace == old(trace) + [SerialFlush]
    {
      trace := trace + [SerialFlush];
    }

    /** The current reading; the clock then moves on by the next drift. */
    method Millis() returns (t: nat)
      modifies this`now, this`drift
      ensures t == old(now)
      ensures old(drift) == [] ==> now == old(now) && drift == []
      ensures old(drift) != [] ==> now == old(now) + old(drift)[0] && drift == old(drift)[1..]
    {
      t := now;
      if drift != [] {
        now := now + drift[0];
        drift := drift[1..];
      }
    }

    method Delay(ms: nat)
      modifies this`now, this`trace
      ensures now == old(now) + ms
      ensures trace == old(trace) + [WaitMs(ms)]
    {
      now := now + ms;
      trace := trace + [WaitMs(ms)];
    }

    /** Microsecond waits are recorded but do not move the millisecond clock. */
    method DelayMicroseconds(us: nat)
      modifies this`trace
      ensures trace == old(trace) + [WaitUs(us)]
    {
      trace := trace + [WaitUs(us)];
    }
  }
}
