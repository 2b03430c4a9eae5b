/** The duplex audio pass-through loop shared by the talkthrough samples: each
    iteration reads a left and a right sample from the I2S RX FIFO, raises the
    debug pin, halves both samples (the integer build: `sample /= 2` on an
    `int32_t`), writes left then right to the TX FIFO and lowers the pin.

    The FIFOs and the pin are abstracted by a board object that logs every
    operation in a trace; the attenuation of each channel is logged as well,
    so that its place between the pin edges can be stated. */
module Audio {
  import opened Seqs

  /** The `int32_t` sample container. */
  type Int32 = x: int | -0x8000_0000 <= x <= 0x7FFF_FFFF

  function Abs(x: int): nat {
    if x < 0 then -x else x
  }

  /** C and C++ signed division by 2: the quotient is truncated toward zero
      (Dafny's own `/` rounds toward negative infinity for a positive divisor). */
  function TruncDiv2(x: int): (q: int)
    ensures 0 <= x ==> 0 <= 2 * q <= x <= 2 * q + 1
    ensures x < 0 ==> 2 * q - 1 <= x <= 2 * q <= 0
  {
    if x >= 0 then x / 2 else -((-x) / 2)
  }

  /** The conditions above pin the quotient down: there is one truncated half. */
  lemma TruncDiv2Unique(x: int, q: int)
    requires 0 <= x ==> 0 <= 2 * q <= x <= 2 * q + 1
    requires x < 0 ==> 2 * q - 1 <= x <= 2 * q <= 0
    ensures q == TruncDiv2(x)
  {
  }

  /** Truncating and flooring (an arithmetic right shift by one) agree except
      on negative odd samples, where the truncated half is one larger. */
  lemma TruncDiv2VersusShift(x: int)
    ensures x >= 0 || x % 2 == 0 ==> TruncDiv2(x) == x / 2
    ensures x < 0 && x % 2 == 1 ==> TruncDiv2(x) == x / 2 + 1
  {
  }

  /** The integer attenuation of one channel, `sample /= 2`: the result stays
      an `int32_t`, keeps the sign, and its magnitude is half the input's,
      rounded down. */
  function Attenuate(x: Int32): (y: Int32)
    ensures 2 * Abs(y) <= Abs(x) <= 2 * Abs(y) + 1
    ensures (y < 0 ==> x < 0) && (y > 0 ==> x > 0)
  {
    TruncDiv2(x)
  }

  lemma AttenuateExamples()
    ensures Attenuate(1000) == 500 && Attenuate(-2000) == -1000
    ensures Attenuate(-3) == -1 && Attenuate(3) == 1
    ensures Attenuate(-0x8000_0000) == -0x4000_0000 && Attenuate(0x7FFF_FFFF) == 0x3FFF_FFFF
  {
  }

  /** The channel-wise attenuation of a sample stream: the reference for what
      the loop writes. */
  function AttenuateAll(xs: seq<Int32>): seq<Int32> {
    seq(|xs|, k requires 0 <= k < |xs| => Attenuate(xs[k]))
  }

  /** What the board observes. */
  datatype Event =
    | PinInit                             // the debug pin is initialised as a GPIO (input)
    | PinSetOutput                        // the debug pin's direction is set to output
    | TransportStart                      // the I2S transfer is started, synchronised to WS
    | Read(sample: int)                   // one sample taken from the RX FIFO
    | PinHigh                             // the debug pin is driven high
    | Attenuated(input: int, output: int) // one channel halved in place
    | Write(sample: int)                  // one sample put into the TX FIFO
    | PinLow                              // the debug pin is driven low

  /** The events of one loop iteration on the frame (left, right). */
  function FrameTrace(left: Int32, right: Int32): seq<Event> {
    [Read(left), Read(right), PinHigh,
     Attenuated(left, Attenuate(left)), Attenuated(right, Attenuate(right)),
     Write(Attenuate(left)), Write(Attenuate(right)), PinLow]
  }

  /** The events of as many iterations as `xs` holds frames (left, right, left, ...). */
  function LoopTrace(xs: seq<Int32>): seq<Event>
    requires |xs| % 2 == 0
    decreases |xs|
  {
    if xs == [] then []
    else LoopTrace(xs[..|xs| - 2]) + FrameTrace(xs[|xs| - 2], xs[|xs| - 1])
  }

  /** One more frame on the stream is one more iteration on the trace. */
  lemma LoopTraceSnoc(xs: seq<Int32>, left: Int32, right: Int32)
    requires |xs| % 2 == 0
    ensures LoopTrace(xs + [left, right]) == LoopTrace(xs) + FrameTrace(left, right)
  {
    var ys := xs + [left, right];
    assert ys[..|ys| - 2] == xs;
  }

  lemma TakeFrame(s: seq<Int32>, k: nat)
    requires k + 2 <= |s|
    ensures s[..k + 2] == s[..k] + [s[k], s[k + 1]]
    ensures s[k..][2..] == s[k + 2..] && s[k..][..2] == [s[k], s[k + 1]]
  {
  }

  lemma AttenuateAllSnoc(xs: seq<Int32>, left: Int32, right: Int32)
    ensures AttenuateAll(xs + [left, right]) == AttenuateAll(xs) + [Attenuate(left), Attenuate(right)]
  {
  }

  // ---------------------------------------------------------------------------
  // The sample streams a trace moves

  /** The samples read from the RX FIFO (`rx`) or written to the TX FIFO (`!rx`), in order. */
  function Samples(t: seq<Event>, rx: bool): seq<int> {
    if t == [] then []
    else
      (match t[0]
       case Read(x) => if rx then [x] else []
       case Write(x) => if rx then [] else [x]
       case _ => [])
      + Samples(t[1..], rx)
  }

  lemma {:induction false} SamplesAppend(a: seq<Event>, b: seq<Event>, rx: bool)
    ensures Samples(a + b, rx) == Samples(a, rx) + Samples(b, rx)
  {
    if a != [] {
      assert (a + b)[0] == a[0] && (a + b)[1..] == a[1..] + b;
      SamplesAppend(a[1..], b, rx);
    } else {
      assert a + b == b;
    }
  }

  lemma FrameSamples(left: Int32, right: Int32)
    ensures Samples(FrameTrace(left, right), true) == [left, right]
    ensures Samples(FrameTrace(left, right), false) == [Attenuate(left), Attenuate(right)]
  {
    var t := FrameTrace(left, right);
    var l, r := Attenuate(left), Attenuate(right);
    forall rx: bool
      ensures Samples(t, rx) == (if rx then [left, right] else [l, r])
    {
      assert Samples([PinLow], rx) == [];
      assert Samples([Write(r), PinLow], rx) == (if rx then [] else [r]);
      assert Samples([Write(l), Write(r), PinLow], rx) == (if rx then [] else [l, r]);
      assert Samples([Attenuated(right, r), Write(l), Write(r), PinLow], rx) == (if rx then [] else [l, r]);
      assert Samples(t[3..], rx) == (if rx then [] else [l, r]);
      assert Samples(t[2..], rx) == (if rx then [] else [l, r]);
      assert Samples(t[1..], rx) == (if rx then [right] else [l, r]);
    }
  }

  /** Over any number of iterations the loop reads exactly the input stream,
      left before right, and writes the attenuated stream in the same order:
      output k is the attenuation of input k, and nothing is dropped,
      reordered or carried from one frame into another. */
  lemma {:induction false} LoopStreams(xs: seq<Int32>)
    requires |xs| % 2 == 0
    ensures Samples(LoopTrace(xs), true) == xs
    ensures Samples(LoopTrace(xs), false) == AttenuateAll(xs)
  {
    if xs != [] {
      var n := |xs|;
      var front, left, right := xs[..n - 2], xs[n - 2], xs[n - 1];
      var before, frame := LoopTrace(front), FrameTrace(left, right);
      assert xs == front + [left, right];
      assert LoopTrace(xs) == before + frame;
      LoopStreams(front);
      FrameSamples(left, right);
      assert Samples(before + frame, true) == xs by {
        SamplesAppend(before, frame, true);
      }
      assert Samples(before + frame, false) == AttenuateAll(xs) by {
        SamplesAppend(before, frame, false);
        AttenuateAllSnoc(front, left, right);
      }
    }
  }

  /** How many times a trace drives the pin high (`high`) or low (`!high`). */
  function Edges(t: seq<Event>, high: bool): nat {
    if t == [] then 0
    else (if t[0] == (if high then PinHigh else PinLow) then 1 else 0) + Edges(t[1..], high)
  }

  lemma {:induction false} EdgesAppend(a: seq<Event>, b: seq<Event>, high: bool)
    ensures Edges(a + b, high) == Edges(a, high) + Edges(b, high)
  {
    if a != [] {
      assert (a + b)[0] == a[0] && (a + b)[1..] == a[1..] + b;
      EdgesAppend(a[1..], b, high);
    } else {
      assert a + b == b;
    }
  }

  lemma FrameEdges(left: Int32, right: Int32)
    ensures Edges(FrameTrace(left, right), true) == 1
    ensures Edges(FrameTrace(left, right), false) == 1
  {
    var t := FrameTrace(left, right);
    forall high: bool
      ensures Edges(t, high) == 1
    {
      var low := if high then 0 else 1;
      assert Edges(t[7..], high) == low;
      assert Edges(t[6..], high) == low;
      assert Edges(t[5..], high) == low;
      assert Edges(t[4..], high) == low;
      assert Edges(t[3..], high) == low;
      assert Edges(t[2..], high) == 1;
      assert Edges(t[1..], high) == 1;
    }
  }

  /** Each iteration raises the pin exactly once and lowers it exactly once. */
  lemma {:induction false} LoopPinEdges(xs: seq<Int32>)
    requires |xs| % 2 == 0
    ensures Edges(LoopTrace(xs), true) == |xs| / 2
    ensures Edges(LoopTrace(xs), false) == |xs| / 2
  {
    if xs != [] {
      var n := |xs|;
      LoopPinEdges(xs[..n - 2]);
      var f := FrameTrace(xs[n - 2], xs[n - 1]);
      FrameEdges(xs[n - 2], xs[n - 1]);
      EdgesAppend(LoopTrace(xs[..n - 2]), f, true);
      EdgesAppend(LoopTrace(xs[..n - 2]), f, false);
    }
  }

  // ---------------------------------------------------------------------------
  // The debug-pin protocol

  /** A monitor of the pin and FIFO protocol: whether the pin is an output,
      whether the transport is started, the pin level, and how many samples of
      the current frame have been read and not yet written back. */
  datatype Monitor =
    | Monitor(pinOutput: bool, started: bool, high: bool, unwritten: nat)
    | Violation

  const PowerOn := Monitor(false, false, false, 0)
  const Ready := Monitor(true, true, false, 0)

  /** The protocol: configuration only between frames; reads only from a
      started transport, with the pin low, at most two per frame; the pin goes
      high only once both samples are in (never twice in a row); samples are
      attenuated only while the pin is high and before any is written back;
      writes only while the pin is high; the pin goes low only after both
      writes. */
  function Observe(m: Monitor, e: Event): Monitor {
    match m
    case Violation => Violation
    case Monitor(out, started, high, n) =>
      match e
      case PinInit => if !high && n == 0 then Monitor(false, started, false, 0) else Violation
      case PinSetOutput => if !high && n == 0 then Monitor(true, started, false, 0) else Violation
      case TransportStart => if !high && n == 0 then Monitor(out, true, false, 0) else Violation
      case Read(_) => if started && out && !high && n < 2 then Monitor(out, started, false, n + 1) else Violation
      case PinHigh => if out && !high && n == 2 then Monitor(out, started, true, 2) else Violation
      case Attenuated(_, _) => if high && n == 2 then m else Violation
      case Write(_) => if high && 0 < n then Monitor(out, started, true, n - 1) else Violation
      case PinLow => if high && n == 0 then Monitor(out, started, false, 0) else Violation
  }

  /** The monitor's state after a trace. */
  function Watch(m: Monitor, t: seq<Event>): Monitor
    decreases |t|
  {
    if t == [] then m else Watch(Observe(m, t[0]), t[1..])
  }

  lemma {:induction false} WatchAppend(m: Monitor, a: seq<Event>, b: seq<Event>)
    ensures Watch(m, a + b) == Watch(Watch(m, a), b)
    decreases |a|
  {
    if a != [] {
      assert (a + b)[0] == a[0] && (a + b)[1..] == a[1..] + b;
      WatchAppend(Observe(m, a[0]), a[1..], b);
    } else {
      assert a + b == b;
    }
  }

  lemma {:induction false} ViolationSticks(t: seq<Event>)
    ensures Watch(Violation, t) == Violation
  {
    if t != [] {
      ViolationSticks(t[1..]);
    }
  }

  /** One iteration leaves a ready board ready. */
  lemma FrameConforms(left: Int32, right: Int32)
    ensures Watch(Ready, FrameTrace(left, right)) == Ready
  {
    var t := FrameTrace(left, right);
    var one, two := Monitor(true, true, false, 1), Monitor(true, true, false, 2);
    var high2, high1, high0 := Monitor(true, true, true, 2), Monitor(true, true, true, 1), Monitor(true, true, true, 0);
    assert Watch(Ready, t) == Watch(one, t[1..]);
    assert Watch(one, t[1..]) == Watch(two, t[2..]);
    assert Watch(two, t[2..]) == Watch(high2, t[3..]);
    assert Watch(high2, t[3..]) == Watch(high2, t[4..]);
    assert Watch(high2, t[4..]) == Watch(high2, t[5..]);
    assert Watch(high2, t[5..]) == Watch(high1, t[6..]);
    assert Watch(high1, t[6..]) == Watch(high0, t[7..]);
    assert Watch(high0, t[7..]) == Watch(Ready, t[8..]);
  }

  /** Any number of iterations on a ready board follow the protocol. */
  lemma {:induction false} LoopConforms(xs: seq<Int32>)
    requires |xs| % 2 == 0
    ensures Watch(Ready, LoopTrace(xs)) == Ready
  {
    if xs != [] {
      var n := |xs|;
      LoopConforms(xs[..n - 2]);
      WatchAppend(Ready, LoopTrace(xs[..n - 2]), FrameTrace(xs[n - 2], xs[n - 1]));
      FrameConforms(xs[n - 2], xs[n - 1]);
    }
  }

  /** A setup that leaves the board ready, followed by the loop, follows the protocol. */
  lemma SessionConforms(setup: seq<Event>, xs: seq<Int32>)
    requires |xs| % 2 == 0
    requires Watch(PowerOn, setup) == Ready
    ensures Watch(PowerOn, setup + LoopTrace(xs)) == Ready
  {
    WatchAppend(PowerOn, setup, LoopTrace(xs));
    LoopConforms(xs);
  }

  /** Any setup that moves no sample, followed by the loop, reads exactly the
      input stream and writes exactly its attenuation. */
  lemma StreamsAfterSetup(setup: seq<Event>, xs: seq<Int32>)
    requires |xs| % 2 == 0
    requires Samples(setup, true) == [] && Samples(setup, false) == []
    ensures Samples(setup + LoopTrace(xs), true) == xs
    ensures Samples(setup + LoopTrace(xs), false) == AttenuateAll(xs)
  {
    LoopStreams(xs);
    SamplesAppend(setup, LoopTrace(xs), true);
    SamplesAppend(setup, LoopTrace(xs), false);
  }

  /** Any setup that does not touch the pin level, followed by the loop,
      raises and lowers the pin once per frame. */
  lemma EdgesAfterSetup(setup: seq<Event>, xs: seq<Int32>)
    requires |xs| % 2 == 0
    requires Edges(setup, true) == 0 && Edges(setup, false) == 0
    ensures Edges(setup + LoopTrace(xs), true) == |xs| / 2
    ensures Edges(setup + LoopTrace(xs), false) == |xs| / 2
  {
    LoopPinEdges(xs);
    EdgesAppend(setup, LoopTrace(xs), true);
    EdgesAppend(setup, LoopTrace(xs), false);
  }

  /** After any setup the monitor accepts, every read of the session comes
      after the pin was set to output and after the transport start. */
  lemma ReadsAfterSetup(setup: seq<Event>, xs: seq<Int32>, k: int)
    requires |xs| % 2 == 0
    requires Watch(PowerOn, setup) == Ready
    requires 0 <= k < |setup + LoopTrace(xs)| && (setup + LoopTrace(xs))[k].Read?
    ensures PinSetOutput in (setup + LoopTrace(xs))[..k]
    ensures TransportStart in (setup + LoopTrace(xs))[..k]
  {
    SessionConforms(setup, xs);
    ReadsFollowSetup(PowerOn, setup + LoopTrace(xs), k);
  }

  /** What the protocol guarantees about reads: in a conforming trace, every
      read is preceded by the start of the transport and by setting the debug
      pin to output. */
  lemma {:induction false} ReadsFollowSetup(m: Monitor, t: seq<Event>, k: int)
    requires m != Violation && Watch(m, t) != Violation
    requires 0 <= k < |t| && t[k].Read?
    ensures m.started || TransportStart in t[..k]
    ensures m.pinOutput || PinSetOutput in t[..k]
    decreases |t|
  {
    var m' := Observe(m, t[0]);
    if m' == Violation {
      ViolationSticks(t[1..]);
    } else if k > 0 {
      ReadsFollowSetup(m', t[1..], k - 1);
      assert t[..k] == [t[0]] + t[1..][..k - 1];
    }
  }

  // ---------------------------------------------------------------------------
  // The board

  /** The I2S transport's FIFOs and the debug pin, as the loop sees them. */
  class DuplexBoard {
    /** Samples the RX FIFO has yet to deliver. */
    var rx: seq<Int32>
    /** Samples pushed into the TX FIFO so far. */
    var tx: seq<Int32>
    /** Everything done so far, in order. */
    var trace: seq<Event>
    var pinOutput: bool
    var pinHigh: bool
    var started: bool

    constructor (input: seq<Int32>)
      ensures rx == input && tx == [] && trace == []
      ensures !pinOutput && !pinHigh && !started
    {
      rx := input;
      tx := [];
      trace := [];
      pinOutput, pinHigh, started := false, false, false;
    }

    /** `gpio_init(pin)`: the pin becomes a GPIO input driving low. */
    method InitPin()
      modifies this
      ensures trace == old(trace) + [PinInit]
      ensures !pinOutput && !pinHigh
      ensures rx == old(rx) && tx == old(tx) && started == old(started)
    {
      trace := trace + [PinInit];
      pinOutput, pinHigh := false, false;
    }

    /** `SetDir(true)` / `gpio_set_dir(pin, true)`. */
    method SetPinOutput()
      modifies this
      ensures trace == old(trace) + [PinSetOutput]
      ensures pinOutput
      ensures rx == old(rx) && tx == old(tx) && pinHigh == old(pinHigh) && started == old(started)
    {
      trace := trace + [PinSetOutput];
      pinOutput := true;
    }

    /** `i2s.Start()`. */
    method Start()
      modifies this
      ensures trace == old(trace) + [TransportStart]
      ensures started
      ensures rx == old(rx) && tx == old(tx) && pinOutput == old(pinOutput) && pinHigh == old(pinHigh)
    {
      trace := trace + [TransportStart];
      started := true;
    }

    /** `GetFifoBlocking()`: the next sample of the RX FIFO. */
    method GetFifoBlocking() returns (x: Int32)
      requires rx != []
      modifies this
      ensures x == old(rx[0]) && rx == old(rx[1..])
      ensures trace == old(trace) + [Read(x)]
      ensures tx == old(tx) && pinOutput == old(pinOutput) && pinHigh == old(pinHigh) && started == old(started)
    {
      x := rx[0];
      rx := rx[1..];
      trace := trace + [Read(x)];
    }

    /** `PutFifoBlocking(x)`: one sample into the TX FIFO. */
    method PutFifoBlocking(x: Int32)
      modifies this
      ensures tx == old(tx) + [x]
      ensures trace == old(trace) + [Write(x)]
      ensures rx == old(rx) && pinOutput == old(pinOutput) && pinHigh == old(pinHigh) && started == old(started)
    {
      tx := tx + [x];
      trace := trace + [Write(x)];
    }

    /** `Put(level)` / `gpio_put(pin, level)` on the debug pin. */
    method Put(level: bool)
      modifies this
      ensures pinHigh == level
      ensures trace == old(trace) + [if level then PinHigh else PinLow]
      ensures rx == old(rx) && tx == old(tx) && pinOutput == old(pinOutput) && started == old(started)
    {
      pinHigh := level;
      trace := trace + [if level then PinHigh else PinLow];
    }

    /** `sample /= 2` on one channel. */
    method Halve(x: Int32) returns (y: Int32)
      modifies this
      ensures y == Attenuate(x)
      ensures trace == old(trace) + [Attenuated(x, y)]
      ensures rx == old(rx) && tx == old(tx) && pinOutput == old(pinOutput) && pinHigh == old(pinHigh) && started == old(started)
    {
      y := TruncDiv2(x);
      trace := trace + [Attenuated(x, y)];
    }

    /** One iteration of the pass-through loop. */
    method Iteration()
      requires started && |rx| >= 2
      modifies this
      ensures rx == old(rx[2..])
      ensures tx == old(tx) + [Attenuate(old(rx[0])), Attenuate(old(rx[1]))]
      ensures trace == old(trace) + FrameTrace(old(rx[0]), old(rx[1]))
      ensures !pinHigh && pinOutput == old(pinOutput) && started
    {
      var left := GetFifoBlocking();
      var right := GetFifoBlocking();
      Put(true);
      left := Halve(left);
      right := Halve(right);
      PutFifoBlocking(left);
      PutFifoBlocking(right);
      Put(false);
    }

    /** The loop `while (true) { ... }`, run for `frames` iterations. */
    method Run(frames: nat)
      requires started && 2 * frames <= |rx|
      modifies this
      ensures rx == old(rx[2 * frames..])
      ensures tx == old(tx) + AttenuateAll(old(rx[..2 * frames]))
      ensures trace == old(trace) + LoopTrace(old(rx[..2 * frames]))
      ensures pinOutput == old(pinOutput) && started
      ensures pinHigh == (old(pinHigh) && frames == 0)
    {
      ghost var input := rx;
      var i := 0;
      ghost var consumed := 0;
      while i < frames
        invariant 0 <= i <= frames && consumed == 2 * i
        invariant started && pinOutput == old(pinOutput)
        invariant pinHigh == (old(pinHigh) && i == 0)
        invariant rx == input[consumed..]
        invariant tx == old(tx) + AttenuateAll(input[..consumed])
        invariant trace == old(trace) + LoopTrace(input[..consumed])
      {
        ghost var done := input[..consumed];
        ghost var left, right := input[consumed], input[consumed + 1];
        Iteration();
        TakeFrame(input, consumed);
        LoopTraceSnoc(done, left, right);
        AttenuateAllSnoc(done, left, right);
        AppendAssoc(old(tx), AttenuateAll(done), [Attenuate(left), Attenuate(right)]);
        AppendAssoc(old(trace), LoopTrace(done), FrameTrace(left, right));
        i := i + 1;
        consumed := consumed + 2;
      }
    }
  }
}
