# Lightwand: strip packing and main-loop state machine

This project models two pieces of the lightwand firmware, a motion-reactive
LED wand built on a microcontroller with an accelerometer and a 30-pixel
WS2812 strip.

- **NeoPixels** (`neopixels.dfy`, from `inc/neopixels.h`). `urgb_u32` builds a
  24-bit GRB pixel word. `put_30_pixels` sends one colour to all 30 pixels. The
  strip wants a continuous stream of channel bytes, green, red, blue per pixel,
  but the PIO push primitive always sends 32 bits. So the function runs a
  channel cursor modulo 3 and packs four stream bytes into each transfer word,
  most significant byte first. It checks the byte count only after each full
  word, so it pushes 23 words (92 bytes): the 90 bytes of the frame and the
  green and red bytes of a phantom 31st pixel. Then it polls the TX FIFO until
  it is empty and holds the line idle for 200 µs. The model is a method whose
  loops mirror the C loops and return the trace of pushes, the drain and the
  sleep. The inner loop, which fills one message word, is its own method
  `NextWord`.
- **WandLoop** (`wand_loop.dfy`, from `src/main.c`). This is one iteration of
  the main `while(1)` loop, as a pure function over an immutable state record.
  It shifts the new jerk value into the 50-entry averaging window. From the sign
  of the averaged jerk it sets the direction `dir`, the time of the last
  movement and `message_index`. When the averaged jerk is zero (or NaN), it
  goes back to rest if the last movement lies before `now - 500000`. That
  subtraction is done on `uint64_t` with
  wrap-around, and the model writes the wrap-around out. It fills the strip with
  the direction colour and records `now` and the acceleration for the next
  iteration.

Modelling choices:

- Words are `bv32` and channel bytes are `bv8`. In C, `color_val << (i * 8u)`
  promotes the `uint8_t` to `int`, so at `i == 3` a byte of 128 or more
  overflows a signed `int`. The model states the intended unsigned result: the
  byte placed in bits `8i .. 8i+7` of the 32-bit word (`Placed`).
- Shifts by a computed amount (`(2 - c) * 8`, `i * 8`) are written as a choice
  among the three or four constant shifts they can take. The value is the same.
- The channel cursor keeps the C update `(color_channel + 1) % 3`. Its
  position after `k` steps is `Cursor(c, k)`, one `Next` step at a time, and
  `CursorMod` connects that to `(c + k) % 3`. The stream the strip expects is
  defined on its own, byte `k` being channel `k % 3` (`StreamByte`), and
  `CursorReadsStream` shows that the cursor follows it.
- `Transmission` is the expected trace written down directly: stream words 0
  to 22, then the drain, then the reset gap. `Put30Pixels` runs the C loops and
  returns exactly that trace.
- `uint64_t` values are integers in `[0, 2^64)`. `WrapSub` is the C
  subtraction, modulo `2^64`.
- Acceleration and jerk are `double`s in the source. Here they are values of a
  type parameter `D` that the loop only stores and passes on. The step receives
  the new jerk value and the sign of the averaged jerk (`Negative`, `Zero`,
  `Positive`). A NaN average, which `0/0` can produce, fails both `< 0` and
  `> 0`, so it falls into `Zero`, as it does in the C code.
- `put_15_pixels_on` is declared elsewhere in the firmware, not in
  `inc/neopixels.h`. A step records each call `put_15_pixels_on(c)` as the
  colour word `c` in its `fills` list.
- `CHAR_WIDTH` comes from the font header. It is a parameter `charWidth`, and
  the properties that need it ask for it to be positive.
- `MessageLenColumns` multiplies `MESSAGE_LEN` by `CHAR_WIDTH` as a macro
  expansion would. The macro has no parentheses, but `MESSAGE_LEN_COLUMNS - 1`
  still expands to `3 * CHAR_WIDTH - 1`, so nothing changes.

The timeout test subtracts 500000 from `now` on `uint64_t`. While `now` is
below 500000 the subtraction wraps to a huge value, so for a last movement not
later than `now` the test fires on every such iteration, as `EarlyStepTimesOut`
shows.

## Model

| member | source | states |
|---|---|---|
| NeoPixels.Urgb | inc/neopixels.h:62-66 | blue sits in bits 0-7, red in bits 8-15, green in bits 16-23, the top byte is zero, and the packing loop's channel extraction reads back green, red and blue for channels 0, 1, 2 |
| NeoPixels.UrgbOfChannels | inc/neopixels.h:31 | on a word whose top byte is zero, composing the three extracted channels gives back the word (the inverse direction of the round trip) |
| NeoPixels.UrgbWireOrder | inc/neopixels.h:24-35 | a pixel composed from (r, g, b) goes on the wire as the bytes [g, r, b] |
| NeoPixels.StreamIsFrame | inc/neopixels.h:42-44 | the first 3n bytes of the cursor-driven stream are exactly n repetitions of the pixel's green, red and blue bytes |
| NeoPixels.FrameAndOverrun | inc/neopixels.h:42-44 | of the 92 bytes the 23 words carry, the first 90 are the 30-pixel frame and the last two are the green and red bytes of a 31st pixel |
| NeoPixels.UnpackPack | inc/neopixels.h:28-34 | the first byte packed into a word sits in bits 24-31 and the fourth in bits 0-7, so reading the word most significant first gives back the four bytes in order |
| NeoPixels.PackUnpack | inc/neopixels.h:28-34 | every transfer word is the packing of its own four bytes, most significant first |
| NeoPixels.PackPrefixStep | inc/neopixels.h:29-34 | the pass with loop index `i` OR-s byte `3 - i` in at bits `8i .. 8i+7` and so extends the partly filled message word by exactly that byte |
| NeoPixels.NextIsMod | inc/neopixels.h:35 | `(channel + 1) % 3` moves the cursor from green to red, red to blue and blue back to green |
| NeoPixels.CursorMod | inc/neopixels.h:35 | after `k` single steps from channel `c` the cursor stands at `(c + k) % 3` |
| NeoPixels.CursorAfterWord | inc/neopixels.h:29-35 | four cursor steps from the channel of byte `t` land on the channel of byte `t + 4`, so the cursor stays in step with the byte count from one message word to the next |
| NeoPixels.CursorReadsStream | inc/neopixels.h:24-35 | a cursor standing at the byte count modulo 3 reads, `k` bytes later, stream byte count + `k`: the cursor never loses its place in the green-red-blue cycle |
| NeoPixels.CursorWordIsStreamWord | inc/neopixels.h:27-40 | the word filled from the channel of byte `4j` is stream word `j`, bytes `4j .. 4j+3` |
| NeoPixels.NextWord | inc/neopixels.h:28-37 | one pass of the inner loop packs the four bytes the cursor reads, the first most significant, advances the byte count by 4 and leaves the cursor four steps on, at `(channel + 4) % 3` |
| NeoPixels.PushedStream | inc/neopixels.h:27-46 | pushing stream words 0 .. n-1 in order puts stream bytes 0 .. 4n-1 on the wire, word j carrying bytes 4j .. 4j+3 |
| NeoPixels.TransmissionBytes | inc/neopixels.h:27-58 | the transmission of 23 stream-word pushes, the drain and the reset sleep puts exactly 92 stream bytes on the wire: the 30-pixel frame, then the green and red bytes of a 31st pixel |
| NeoPixels.Put30Pixels | inc/neopixels.h:9-59 | the loops produce exactly the transmission: the loop ends after 23 pushes, word j being stream bytes 4j .. 4j+3, and the only actions after the last push are the FIFO drain and one 200 µs sleep. The wire carries the first 92 bytes of the green-red-blue stream |
| WandLoop.ColorsOnTheWire | src/main.c:26-28 | the rest colour is dim blue on the wire; the direction colours of lines 132 and 134 are pure red and pure green |
| WandLoop.WrapSub | src/main.c:123 | `uint64_t` subtraction gives the difference when it is non-negative and wraps to 2^64 minus the shortfall otherwise |
| WandLoop.TimedOutIff | src/main.c:123 | if the last movement is not later than `now`, the timeout test fires exactly when `now` is below 500000 µs or more than 500000 µs have passed since the last movement |
| WandLoop.EarlyStepTimesOut | src/main.c:123-128 | an iteration whose averaged jerk is zero (or NaN) while `now` is below 500000 µs goes to rest (dir 0, message index -1, rest-colour fill), because the subtraction wraps, provided the last movement is not later than `now` (which `RunKeepsLastMovedPast` guarantees under a clock that never runs backwards) |
| WandLoop.Init | src/main.c:65-80 | the loop starts with 50 zeroed jerk entries, dir 0, last movement at 0, message index -1 and zero previous time and acceleration |
| WandLoop.Shift | src/main.c:93-96 | after the shift the new value is entry 0, entry i is the old entry i-1 for 1 <= i < 50, the old last entry is gone and the length stays 50 |
| WandLoop.ShiftHistory | src/main.c:93-96 | the back-to-front copy loop followed by the store into entry 0 produces exactly the shifted window |
| WandLoop.DirectionFill | src/main.c:131-134 | dir -1 fills with `urgb_u32(255,0,0)`, dir 1 with `urgb_u32(0,255,0)`, any other dir fills nothing |
| WandLoop.Step | src/main.c:83-150 | a negative sign sets dir -1 and the last movement to `now`, and -1 message index becomes the last column; a positive sign sets dir 1 and the last movement to `now`, and -1 becomes column 0; any other message index is kept. A zero sign with a timeout sets dir 0 and index -1 and fills with the rest colour. A zero sign without a timeout changes nothing and shows the direction again. Afterwards the previous time and acceleration are this iteration's |
| WandLoop.InitValid | src/main.c:71-80 | the initial variables satisfy the loop invariant |
| WandLoop.StepPreservesValid | src/main.c:109-128 | every iteration keeps dir in {-1, 0, 1}, keeps the message index -1 exactly when dir is 0, and keeps it otherwise equal to 0 or the last column, so within [0, columns-1] |
| WandLoop.StepFillMatchesDirection | src/main.c:109-134 | after an iteration the strip was filled red when dir is -1, green when dir is 1, and at most with the rest colour when dir is 0 |
| WandLoop.Run | src/main.c:82-151 | repeating the loop body over any sequence of samples keeps the jerk window at its width of 50 entries |
| WandLoop.RunPreservesValid | src/main.c:82-151 | every state the loop reaches, over any sequence of samples, satisfies the invariant |
| WandLoop.RunKeepsLastMovedPast | src/main.c:109-150 | with a clock that never runs backwards, the last movement is never later than the previous iteration's time |

## Left out

- NeoPixels.PackPrefixStep: places byte `v` at bits `8i .. 8i+7` as an unsigned 32-bit value. In C, `color_val << (i * 8u)` (inc/neopixels.h:34) shifts a signed `int`, and at `i == 3` a byte of 128 or more overflows it, which is undefined behaviour. NeoPixels.NextWord inherits this reading. The model does not represent the undefined case.
- Floating point: the acceleration scaling (src/main.c:89), the jerk division (src/main.c:96) and the averaging (src/main.c:99-103). The step receives the new jerk value and the sign of the average. The division by zero when `now == prev_now` is a floating-point matter and is not modelled.
- Hardware and I/O: the startup LED blinking (src/main.c:40-48), the ADXL343 setup and reads (src/main.c:52-57, 86), `setup_ws2812`, `time_us_64` (its value is the `now` parameter), `printf` (src/main.c:106), `calloc`/`free`, and the contents of `pio_sm_put_blocking`, `pio_sm_is_tx_fifo_empty`, `sleep_us` and `sleep_ms`.
- Put30Pixels: the FIFO-empty polling loop is a single `AwaitFifoEmpty` event. How many 1 µs polls it takes depends on the hardware.
- The startup fill `put_15_pixels_on(urgb_u32(0x0f, 0xbf, 0x0f))` (src/main.c:61) comes before the loop and is not part of the step.
- `put_15_pixels_on` and `put_15_pixels` are not defined in `inc/neopixels.h`, so they are not part of this model. A fill is recorded only as its colour word.
- Commented-out code: the 24-bit-shift variant (inc/neopixels.h:15-21) and the column-scroll block (src/main.c:136-147). With that block dead, `last_changed_col_time_us` (src/main.c:79) is never read or written again, so it is not in the state. For the same reason the message index only ever takes the values -1, 0 and the last column.
- The glyph tables, the value of `CHAR_WIDTH`, the `message` array (src/main.c:33) and the ADXL343 driver are not part of this model.
- WandLoop.Run: its own contract only says that the window keeps its width. What the loop keeps over a run is stated by RunPreservesValid and RunKeepsLastMovedPast.
