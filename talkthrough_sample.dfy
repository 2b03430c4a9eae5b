/** `main` of the talkthrough_sample program, from the moment the debug pin is
    set up: the pin is initialised as a GPIO and set to output, the codec is
    started and unmuted (not modelled), the I2S object is built and started,
    and the pass-through loop runs. */
module TalkthroughSample {
  import opened Audio

  /** The setup the loop depends on, in program order:
      `gpio_init(I2S_GPIO_PIN_DEBUG)`, `gpio_set_dir(I2S_GPIO_PIN_DEBUG, true)`,
      then `i2s.Start()`. */
  function Setup(): seq<Event> {
    [PinInit, PinSetOutput, TransportStart]
  }

  /** Everything observed: the setup, then one iteration per frame of `xs`. */
  function SessionTrace(xs: seq<Int32>): seq<Event>
    requires |xs| % 2 == 0
  {
    Setup() + LoopTrace(xs)
  }

  /** The setup leaves the pin an output and the transport started, with the
      pin low and no sample moved. */
  lemma SetupReady()
    ensures Watch(PowerOn, Setup()) == Ready
    ensures Samples(Setup(), true) == [] && Samples(Setup(), false) == []
    ensures Edges(Setup(), true) == 0 && Edges(Setup(), false) == 0
  {
    assert Setup()[1..][1..][1..] == [];
  }

  /** Runs the program for `frames` iterations of its endless loop, the RX
      FIFO delivering `input`. */
  method TalkThroughSample(input: seq<Int32>, frames: nat) returns (board: DuplexBoard)
    requires 2 * frames <= |input|
    ensures fresh(board)
    ensures board.trace == SessionTrace(input[..2 * frames])
    ensures board.tx == AttenuateAll(input[..2 * frames])
    ensures board.rx == input[2 * frames..]
    ensures board.pinOutput && board.started && !board.pinHigh
    ensures Watch(PowerOn, board.trace) == Monitor(board.pinOutput, board.started, board.pinHigh, 0)
  {
    board := new DuplexBoard(input);
    board.InitPin();
    board.SetPinOutput();
    board.Start();
    board.Run(frames);
    SessionProtocol(input[..2 * frames]);
  }

  /** The pin protocol holds over the whole run: both samples of a frame are
      read before `gpio_put(..., true)`, the pin stays high through the
      halving and both writes, and goes low at the end of each iteration,
      once per frame. */
  lemma SessionProtocol(xs: seq<Int32>)
    requires |xs| % 2 == 0
    ensures Watch(PowerOn, SessionTrace(xs)) == Ready
    ensures Edges(SessionTrace(xs), true) == |xs| / 2 == Edges(SessionTrace(xs), false)
  {
    SetupReady();
    SessionConforms(Setup(), xs);
    EdgesAfterSetup(Setup(), xs);
  }

  /** Sample k written to the TX FIFO is sample k read from the RX FIFO,
      halved with truncation toward zero: left stays left, right stays right,
      and no frame is reordered or held over. */
  lemma SessionStreams(xs: seq<Int32>)
    requires |xs| % 2 == 0
    ensures Samples(SessionTrace(xs), true) == xs
    ensures Samples(SessionTrace(xs), false) == AttenuateAll(xs)
  {
    SetupReady();
    StreamsAfterSetup(Setup(), xs);
  }

  /** The debug pin is an output and the transport is started before the
      first sample is taken from the RX FIFO. */
  lemma SetupBeforeReads(xs: seq<Int32>, k: int)
    requires |xs| % 2 == 0
    requires 0 <= k < |SessionTrace(xs)| && SessionTrace(xs)[k].Read?
    ensures PinSetOutput in SessionTrace(xs)[..k]
    ensures TransportStart in SessionTrace(xs)[..k]
  {
    SetupReady();
    ReadsAfterSetup(Setup(), xs, k);
  }
}
