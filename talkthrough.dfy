/** `main` of the talkthrough sample, from the moment the debug pin is set up:
    the pin's direction is set to output, the codec is started and unmuted
    (not modelled), the I2S transfer is started, and the pass-through loop
    runs. */
module Talkthrough {
  import opened Audio

  /** The setup the loop depends on, in program order: `debug_pin.SetDir(true)`,
      then `i2s.Start()`. */
  function Setup(): seq<Event> {
    [PinSetOutput, TransportStart]
  }

  /** Everything observed: the setup, then one iteration per frame of `xs`. */
  function SessionTrace(xs: seq<Int32>): seq<Event>
    requires |xs| % 2 == 0
  {
    Setup() + LoopTrace(xs)
  }

  /** The setup leaves the pin an output and the transport started, with the
      pin low and no sample moved. */
  lemma SetupReady()
    ensures Watch(PowerOn, Setup()) == Ready
    ensures Samples(Setup(), true) == [] && Samples(Setup(), false) == []
    ensures Edges(Setup(), true) == 0 && Edges(Setup(), false) == 0
  {
    assert Setup()[1..][1..] == [];
  }

  /** Runs the program for `frames` iterations of its endless loop, the RX
      FIFO delivering `input`. */
  method TalkThrough(input: seq<Int32>, frames: nat) returns (board: DuplexBoard)
    requires 2 * frames <= |input|
    ensures fresh(board)
    ensures board.trace == SessionTrace(input[..2 * frames])
    ensures board.tx == AttenuateAll(input[..2 * frames])
    ensures board.rx == input[2 * frames..]
    ensures board.pinOutput && board.started && !board.pinHigh
    ensures Watch(PowerOn, board.trace) == Monitor(board.pinOutput, board.started, board.pinHigh, 0)
  {
    board := new DuplexBoard(input);
    board.SetPinOutput();
    board.Start();
    board.Run(frames);
    SessionProtocol(input[..2 * frames]);
  }

  /** The pin protocol holds over the whole run: left and right are read
      before `debug_pin.Put(true)`, both channels are halved and written
      while the pin is high, the pin falls only after the right write, and it
      rises and falls exactly once per frame. */
  lemma SessionProtocol(xs: seq<Int32>)
    requires |xs| % 2 == 0
    ensures Watch(PowerOn, SessionTrace(xs)) == Ready
    ensures Edges(SessionTrace(xs), true) == |xs| / 2 == Edges(SessionTrace(xs), false)
  {
    SetupReady();
    SessionConforms(Setup(), xs);
    EdgesAfterSetup(Setup(), xs);
  }

  /** The reads are the input stream and the writes are the attenuated
      stream, sample by sample: output k is input k halved with truncation
      toward zero, left before right in every frame. */
  lemma SessionStreams(xs: seq<Int32>)
    requires |xs| % 2 == 0
    ensures Samples(SessionTrace(xs), true) == xs
    ensures Samples(SessionTrace(xs), false) == AttenuateAll(xs)
  {
    SetupReady();
    StreamsAfterSetup(Setup(), xs);
  }

  /** The debug pin is an output and the transport is started before the
      first sample is taken from the RX FIFO. */
  lemma SetupBeforeReads(xs: seq<Int32>, k: int)
    requires |xs| % 2 == 0
    requires 0 <= k < |SessionTrace(xs)| && SessionTrace(xs)[k].Read?
    ensures PinSetOutput in SessionTrace(xs)[..k]
    ensures TransportStart in SessionTrace(xs)[..k]
  {
    SetupReady();
    ReadsAfterSetup(Setup(), xs, k);
  }
}
