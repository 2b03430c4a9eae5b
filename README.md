# Bus scan and duplex audio pass-through, modelled in Dafny

This project models the two algorithms of the rpp_driver sample programs that
do more than wire drivers together:

- **The I2C bus scan** (`I2cSearch` of the i2cscan sample), module `I2cScan`
  in `i2cscan.dfy`. It walks the 7-bit address space in 8 rows of 16. An
  address at or below 0x03, or at or above 0x78, is reserved: it is never
  probed and prints three spaces. Every other address is probed once, in
  ascending order. It prints `" %2X"` when the device acknowledges and
  `" --"` when it does not. A fixed header comes first, and each row starts
  with its first address in `%2x` followed by `" |"`. The bus is abstracted
  by its responder set: `IsDeviceExisting(a)` acknowledges exactly when
  `a in responders`. `I2cSearch` returns the printed text and the log of
  probed addresses.
- **The duplex audio pass-through loop** of the talkthrough and
  talkthrough_sample programs. Module `Audio` in `audio.dfy` holds what the
  two programs share: the `int32_t` sample type, the integer attenuation
  `sample /= 2`, and the class `DuplexBoard`. That class holds the RX FIFO
  still to be delivered, the samples pushed into the TX FIFO, the debug-pin
  state and a trace of events. Its methods are the pin setup, the transport
  start, one loop iteration and a bounded run of the loop. `Audio` also
  holds the trace functions and a monitor of the pin protocol. Modules
  `Talkthrough` (`talkthrough.dfy`) and `TalkthroughSample`
  (`talkthrough_sample.dfy`) model each program's own setup order and state
  what holds over a whole run of that program.

Module `Seqs` (`seqs.dfy`) holds small facts about sequence concatenation and
slicing that both parts use.

The two loops are the same code up to the names of the driver calls
(`GetFifoBlocking`/`GetFIFOBlocking`, `debug_pin.Put`/`sdk.gpio_put`), so one
class models both. In what the model covers, the two programs differ only in
how the debug pin is set up. talkthrough calls `SetDir(true)` on a
`GpioBasic`. talkthrough_sample calls `gpio_init` and then `gpio_set_dir`.
The programs also differ in where the I2S object is constructed and in how
the LED pin is set up; neither is modelled. The shared lemmas
`Audio.StreamsAfterSetup`, `Audio.EdgesAfterSetup` and
`Audio.ReadsAfterSetup` hold for any setup trace, and each program module
instantiates them with its own setup.

The trace also records each channel's halving (`Attenuated(input, output)`).
This lets the model state that the attenuation happens while the debug pin
is high.

The model follows the code in these details:

- `%2X` pads with a space, not a zero. A present device at 0x04-0x0F prints
  as `"  4"` … `"  F"`, not `" 04"` (`I2cScan.SmallAddressPadding`).
- The header is three printf calls. The first one begins with a newline, so
  the report opens with an empty line, then the title line, then the column
  labels, then the separator.
- The integer attenuation is C++ `int32_t /= 2`, which truncates toward
  zero. It is not an arithmetic right shift, which floors. The two differ on
  negative odd samples: -3 halves to -1, not -2
  (`Audio.TruncDiv2VersusShift`).
- The protocol monitor (`Audio.Observe`) treats a second rise of the debug
  pin without a fall in between as a violation.

## Model

| member | source | states |
|---|---|---|
| `I2cScan.I2cSearch` | samples/i2cscan/main.cpp:29-50 | the printed text is exactly the fixed header followed by the eight row lines (`Report`), and the probe log is exactly `Probes(0x80)` |
| `I2cScan.ScanRows` | samples/i2cscan/main.cpp:35-49 | the row loop appends exactly the eight row lines to what was printed before, and the probe log is exactly `Probes(0x80)` |
| `I2cScan.ScanRow` | samples/i2cscan/main.cpp:37-48 | one pass of the column loop appends exactly the row line of `raw` to whatever was printed before, and appends to whatever probe log came before exactly the non-reserved addresses `raw` … `raw + 15`, ascending |
| `I2cScan.Cell` | samples/i2cscan/main.cpp:41-46 | every cell of the grid is exactly three characters |
| `I2cScan.Hex2` | samples/i2cscan/main.cpp:44 | `%2X`/`%2x` of a value below 0x100 is exactly two characters |
| `I2cScan.Hex2RoundTrip` | samples/i2cscan/main.cpp:44 | a `%2X` field reads back to the value printed, for upper and lower case |
| `I2cScan.CellRoundTrip` | samples/i2cscan/main.cpp:41-46 | every cell reads back to its class: reserved from `"   "`, absent from `" --"`, present together with its address |
| `I2cScan.SmallAddressPadding` | samples/i2cscan/main.cpp:44 | a present address 0x04-0x0F prints as two spaces and one digit, not `" 0"` and a digit |
| `I2cScan.ColumnLabelsSpelled` | samples/i2cscan/main.cpp:31 | the column-label line is `"   |"`, the sixteen labels `" 00"` … `" 0F"` and a newline |
| `I2cScan.ColumnLabelAt` | samples/i2cscan/main.cpp:31 | the label line is 53 characters, and the label above column `col` (at 4 + 3·col) names that column's low nibble |
| `I2cScan.RowPrefix` | samples/i2cscan/main.cpp:37 | the row prefix `"%2x |"` is four characters |
| `I2cScan.ProbesSplit` | samples/i2cscan/main.cpp:35-47 | the probe log of the scan up to `n` is the log up to any earlier `lo` followed by the probes of the addresses `lo` … `n - 1`, so the per-row logs concatenate to the whole scan's |
| `I2cScan.ProbesUpTo` | samples/i2cscan/main.cpp:35-47 | after visiting the addresses below `n`, the probes issued are 4, 5, … up to min(n, 0x78) - 1, in that order |
| `I2cScan.ProbeOrder` | samples/i2cscan/main.cpp:35-47 | the scan issues 0x74 probes in strictly increasing order; an address is probed exactly when it is in 0x04-0x77; no reserved address is probed |
| `I2cScan.CellsLayout` | samples/i2cscan/main.cpp:38-47 | n cells take 3·n characters, and cell `col` sits at 3·col |
| `I2cScan.RowLineLayout` | samples/i2cscan/main.cpp:37-48 | a row line is 52 characters plus a newline: the `%2x` row address and `" |"`, then the cell of address raw + col at 4 + 3·col |
| `I2cScan.RowsLayout` | samples/i2cscan/main.cpp:35-49 | k rows take 53·k characters, and row j (address 16·j) sits at 53·j |
| `I2cScan.ReportRows` | samples/i2cscan/main.cpp:30-49 | the report is the 140-character header followed by exactly eight 53-character lines; line k starts with `%2x` of 16·k and `" |"` and ends with a newline |
| `I2cScan.GridCellAt` | samples/i2cscan/main.cpp:35-47 | in the grid, the cell in row `row` and column `col` is that of address 16·row + col |
| `I2cScan.GridRowAt` | samples/i2cscan/main.cpp:37-48 | in the grid, line `row` starts with the `%2x` of 16·row and `" |"` and ends with a newline |
| `I2cScan.ReportCellAt` | samples/i2cscan/main.cpp:35-47 | the cell of every address 0..127 sits in row a / 16, at column position 4 + 3·(a % 16), and is that address's cell for the bus |
| `I2cScan.ReportDecodes` | samples/i2cscan/main.cpp:41-46 | reading the report back at any address's cell gives that address's class |
| `I2cScan.ReportDeterminesResponders` | samples/i2cscan/main.cpp:29-50 | two buses give the same report if and only if they agree on every probed address 0x04-0x77, so the scan is deterministic in the responder set and loses nothing about it |
| `I2cScan.EmptyBusReport` | samples/i2cscan/main.cpp:41-46 | with no responder, every probed cell is `" --"` and every reserved one is `"   "` |
| `I2cScan.TwoDeviceReport` | samples/i2cscan/main.cpp:41-46 | with responders at 0x38 and 0x50 only, those cells read `" 38"` and `" 50"` and every other probed cell reads `" --"` |
| `Audio.TruncDiv2` | samples/talkthrough/main.cpp:149-150 | the C++ half of a signed value: 2·q is within one of x, on the side of zero |
| `Audio.TruncDiv2Unique` | samples/talkthrough/main.cpp:149-150 | those bounds determine the half uniquely |
| `Audio.TruncDiv2VersusShift` | samples/talkthrough/main.cpp:149-150 | truncation agrees with flooring (an arithmetic shift) except on negative odd samples, where it is one larger |
| `Audio.Attenuate` | samples/talkthrough/main.cpp:149-150 | halving an `int32_t` stays in `int32_t`, keeps the sign, and its magnitude is half the input's, rounded down: 2·|y| ≤ |x| ≤ 2·|y| + 1 |
| `Audio.AttenuateExamples` | samples/talkthrough/main.cpp:149-150 | (1000, -2000) becomes (500, -1000); -3 becomes -1 and 3 becomes 1; the `int32_t` extremes halve to -0x40000000 and 0x3FFFFFFF |
| `Audio.FrameSamples` | samples/talkthrough/main.cpp:133-155 | one iteration reads left then right and writes attenuated left then attenuated right |
| `Audio.LoopStreams` | samples/talkthrough/main.cpp:130-158 | over any number of iterations the reads are exactly the input stream and the writes are exactly its attenuation: 2N in, 2N out, sample k out from sample k in |
| `Audio.FrameEdges` | samples/talkthrough/main.cpp:137-157 | one iteration drives the pin high exactly once and low exactly once |
| `Audio.LoopPinEdges` | samples/talkthrough/main.cpp:137-157 | N iterations drive the pin high exactly N times and low exactly N times |
| `Audio.FrameConforms` | samples/talkthrough/main.cpp:133-157 | one iteration follows the pin protocol and ends ready for the next |
| `Audio.LoopConforms` | samples/talkthrough/main.cpp:130-158 | any number of iterations follow the pin protocol: both reads before the pin rises, halving and writes only while it is high, no rise twice in a row, the fall only after both writes, no sample carried into the next frame |
| `Audio.SessionConforms` | samples/talkthrough/main.cpp:117-158 | a setup that leaves the pin an output and the transport started, followed by the loop, follows the protocol |
| `Audio.ReadsFollowSetup` | samples/talkthrough/main.cpp:117-134 | in any trace the protocol accepts, each FIFO read comes after the transport start and after the pin was set to output |
| `Audio.StreamsAfterSetup` | samples/talkthrough/main.cpp:117-158 | a setup that moves no sample, followed by the loop, reads exactly the input stream and writes exactly its attenuation |
| `Audio.EdgesAfterSetup` | samples/talkthrough/main.cpp:117-158 | a setup that drives no pin edge, followed by the loop, raises and lowers the pin once per frame |
| `Audio.ReadsAfterSetup` | samples/talkthrough/main.cpp:117-134 | after any setup the protocol accepts, every FIFO read of the session comes after the pin was set to output and after the transport start |
| `Audio.DuplexBoard.InitPin` | samples/talkthrough_sample/main.cpp:82 | `gpio_init` logs the event and leaves the pin a low input; nothing else changes |
| `Audio.DuplexBoard.SetPinOutput` | samples/talkthrough/main.cpp:117 | the debug pin becomes an output; nothing else changes |
| `Audio.DuplexBoard.Start` | samples/talkthrough/main.cpp:127 | the transport is started; nothing else changes |
| `Audio.DuplexBoard.GetFifoBlocking` | samples/talkthrough/main.cpp:133-134 | returns the head of the RX FIFO and removes it, logging the read |
| `Audio.DuplexBoard.PutFifoBlocking` | samples/talkthrough/main.cpp:154-155 | appends the sample to the TX FIFO, logging the write |
| `Audio.DuplexBoard.Put` | samples/talkthrough/main.cpp:137 | sets the debug-pin level, logging the edge |
| `Audio.DuplexBoard.Halve` | samples/talkthrough/main.cpp:149 | returns `Attenuate(x)` and logs the halving |
| `Audio.DuplexBoard.Iteration` | samples/talkthrough/main.cpp:130-158 | one iteration consumes exactly two RX samples, appends exactly their two attenuations to TX, appends exactly `FrameTrace` of them to the trace, and leaves the pin low |
| `Audio.DuplexBoard.Run` | samples/talkthrough/main.cpp:130-158 | N iterations consume exactly 2N RX samples, append exactly their attenuation to TX and exactly `LoopTrace` of them to the trace |
| `Talkthrough.SetupReady` | samples/talkthrough/main.cpp:117-127 | `SetDir(true)` then `i2s.Start()` brings the protocol monitor from power-on to ready, with no sample moved and no pin edge |
| `Talkthrough.TalkThrough` | samples/talkthrough/main.cpp:115-158 | after the pin setup, the transport start and N iterations, the trace is the setup followed by the loop trace, TX holds the attenuated first 2N inputs, and RX holds the rest; the pin is a low output, the transport is started, and those fields agree with the protocol monitor's state after the trace |
| `Talkthrough.SessionProtocol` | samples/talkthrough/main.cpp:130-158 | the program's whole run follows the pin protocol, and the pin rises and falls once per frame |
| `Talkthrough.SessionStreams` | samples/talkthrough/main.cpp:130-158 | the program reads exactly the input stream and writes exactly its halving, sample by sample, left before right |
| `Talkthrough.SetupBeforeReads` | samples/talkthrough/main.cpp:117-127 | the pin is an output and the transport is started before the first FIFO read |
| `TalkthroughSample.SetupReady` | samples/talkthrough_sample/main.cpp:82-94 | `gpio_init`, `gpio_set_dir` then `i2s.Start()` brings the protocol monitor from power-on to ready, with no sample moved and no pin edge |
| `TalkthroughSample.TalkThroughSample` | samples/talkthrough_sample/main.cpp:82-125 | after `gpio_init`, `gpio_set_dir`, the transport start and N iterations, the trace is that setup followed by the loop trace, TX holds the attenuated first 2N inputs, and RX holds the rest; the pin is a low output, the transport is started, and those fields agree with the protocol monitor's state after the trace |
| `TalkthroughSample.SessionProtocol` | samples/talkthrough_sample/main.cpp:97-125 | both reads come before the pin rises; the pin stays high through the halving and both writes; it falls at the end of each iteration, once per frame |
| `TalkthroughSample.SessionStreams` | samples/talkthrough_sample/main.cpp:100-122 | output k is input k halved with truncation toward zero; no frame is reordered or held over |
| `TalkthroughSample.SetupBeforeReads` | samples/talkthrough_sample/main.cpp:82-94 | the pin is an output and the transport is started before the first FIFO read |

## Left out

- The floating-point attenuation (`sample * 0.7f`, built for the RP2350 Arm core): floating-point numerics are not modelled; only the integer build is.
- Real-time behaviour: the one-sample-period budget, FIFO overrun and underrun, and the blocking itself belong to the hardware transport and have no meaning in a sequential model.
- Audio.DuplexBoard.GetFifoBlocking: on an empty RX FIFO the source waits until the transport delivers a sample; the model has no transport running beside the loop, so it requires a queued sample instead, and `Run(frames)` requires 2·frames queued samples. The TX FIFO is unbounded, so `PutFifoBlocking` never blocks.
- Audio.DuplexBoard.Run: the source loop never ends; the model runs it for a given number of iterations and states everything for every such prefix.
- The driver classes (`I2cMaster`, `I2sSlaveDuplex`/`DuplexSlaveI2S`, `Adau1361`, `GpioBasic`, `SdkWrapper`) are not part of this model. `IsDeviceExisting` is membership in the responder set; the FIFO and pin calls are the board methods above.
- Codec construction, `codec.Start()` and the two unmute calls, the construction of the I2S object (before the pin setup in talkthrough, after `codec.Start()` in talkthrough_sample), the LED pin setup, `stdio_init_all`, the `I2S_DEBUG` countdown and the picotool `bi_decl` records: configuration with no effect on the loop's logic.
- The i2cscan `main`: its startup countdown and the LED blink loops are sleep and LED I/O only.
- The blink sample: an endless sleep-and-toggle loop.
- printf itself: the scan's output is one string, built from the header, the `%2x |` row prefixes, the three-character cells and the newlines.
