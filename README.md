# Cherry blossoms: a verified model of the WS2812 pattern driver

This project models the pattern engine of `cherryblossoms.c`. That program
drives a strip of 64 WS2812 ("NeoPixel") LEDs from an RP2040 PIO state
machine. The model covers:

- **Colour packing**: `urgb_u32` packs red, green and blue bytes into a
  24-bit word with green high, red in the middle and blue low. `put_pixel`
  shifts that word left by eight bits before pushing it to the PIO FIFO
  (module `Color`, over the unsigned word arithmetic of module `Words`).
- **The five patterns** (module `Patterns`):
  - `pattern_snakes`: three moving bands of red, green and blue;
  - `pattern_random`: a random word per pixel;
  - `pattern_sparkle`: a blossom-coloured pixel with probability 1/16, dark otherwise;
  - `pattern_greys`: a running counter modulo 100 times the blossom colour;
  - `pattern_sakura`: solid blossom colour.

  Random, sparkle and sakura draw only on frames with `t % 8 == 0`. Each
  pattern is a method with the loop of the C function. It is proved to emit
  exactly the words of a specification function (`SnakesFrame`,
  `GreysFrame`, ...), and the properties of each pattern are proved as lemmas
  about those functions.
- **The pattern table and `main`'s loops** (module `Driver`):
  - the two-entry `pattern_table` (sakura, sparkle);
  - the choice of pattern and direction from `rand()`;
  - the conversion of the signed frame counter to the `uint` parameter;
  - one frame of the inner loop, the 1000 frames of the inner loop, and one
    pass of the outer loop.

The model works on these terms:

- **Emission channel.** `put_pixel` writes to the PIO FIFO. The model
  passes the FIFO contents as a value: `sent` is the sequence of 32-bit
  words pushed so far, and every renderer returns `sent` with its own words
  appended. `Emit(frame)` is what a frame of pixel words looks like on the
  wire, each word shifted by `put_pixel`.
- **rand() as an oracle.** `rand()` is a function `rand: nat -> Draw`, read
  at consecutive positions starting at `pos`. A renderer that draws returns
  the next unread position. `Draw` is `[0, RAND_MAX]`, with `RAND_MAX =
  0x7fffffff` as in newlib, the C library of the RP2040 toolchain.
- **Word arithmetic.** C integers are modelled as unbounded integers
  restricted to their range (`U8`, `U32`). Wrap-around is written out
  explicitly (`Add32`, `Mul32`, `Shl32`). The bitwise `|` is the recursive
  `Words.Or`, and `Words.OrDisjoint` proves that on disjoint bit ranges it
  equals addition. `>> k` is division by `2^k`, and `& 0xff` is `% 0x100`.

Main results:

- `urgb_u32` round-trips its three bytes, and every word below `2^24` is
  the packing of its own bytes.
- On the wire, green is in bits 24-31, red in bits 16-23, blue in bits 8-15,
  and bits 0-7 are zero.
- Snakes shows pixel `i + 1` at frame `t` exactly as pixel `i` at frame
  `t + 2`, and repeats every 128 frames. Both facts hold across the 32-bit
  wrap of `t`: at the wrap `t >> 1` drops by `2^31`, and 64 divides `2^31`.
  The sum `i + (t >> 1)` may also wrap, which is harmless because 64
  divides `2^32`.
- The greys counter is `(t + i) mod 100` and the product never wraps. But
  from level 6 upward the product is at least `2^24`, so `put_pixel` shifts
  its top byte out. Greys is therefore not a per-channel scaling of the
  blossom colour.
- A sparkle pixel is lit, in the blossom colour, exactly when its draw is a
  multiple of 16.
- Sakura, sparkle and random send nothing on frames with `t % 8 != 0`.
- Converting the signed counter to `uint` keeps `t mod 8`. So, in `main`,
  the table patterns render exactly on the frames where the signed counter
  is a multiple of 8, in either direction.
- Of every 1000 frames of a choice, exactly 125 render, each of 64 pixels.
  Every word sent is the blossom colour, or for sparkle also zero, and
  sparkle consumes one draw per pixel it sends.

`cherryblossoms.c` has no HSV colour conversion, no per-pixel hue or
saturation state, no analog brightness input and no sparkle mask held over
several frames: its sparkle redraws every pixel on every eighth frame. The
model follows the code.

## Model

| member | source | states |
|---|---|---|
| Words.OrDisjoint | cherryblossoms.c:24-26 | when one operand lies in the low `k` bits and the other has its low `k` bits clear, the bitwise or of the two equals their sum, in either operand order |
| Color.Urgb | cherryblossoms.c:22-27 | the packed word is `g * 2^16 + r * 2^8 + b` and is below `2^24` |
| Color.UrgbRoundTrip | cherryblossoms.c:22-27 | red, green and blue read back from `urgb_u32(r, g, b)` as `(w >> 8) & 0xff`, `(w >> 16) & 0xff` and `w & 0xff` are `r`, `g` and `b` |
| Color.UrgbOnto | cherryblossoms.c:22-27 | every word below `2^24` is `urgb_u32` of its own three bytes |
| Color.Transmit | cherryblossoms.c:18-20 | the word `put_pixel` pushes has its low byte zero, and its top three bytes are the low 24 bits of the pixel word |
| Color.TransmitLayout | cherryblossoms.c:18-27 | on the wire the word of `urgb_u32(r, g, b)` is green in bits 24-31, red in 16-23, blue in 8-15 and zero in 0-7 |
| Color.TransmitZero | cherryblossoms.c:18-20 | a dark pixel is sent as the word 0 |
| Patterns.SnakesPos | cherryblossoms.c:31 | the position `(i + (t >> 1)) % 64`, computed with 32-bit wrap, is below 64 and equals the unwrapped `(i + t / 2) mod 64` |
| Patterns.SnakesBands | cherryblossoms.c:32-39 | a snakes pixel is full red at positions 0-9, full green at 15-24, full blue at 30-39 and dark elsewhere, and always fits in 24 bits |
| Patterns.SnakesPosStep | cherryblossoms.c:31 | advancing the counter by 2, with 32-bit wrap, moves each position one place along the strip |
| Patterns.SnakesPosPeriod | cherryblossoms.c:31 | advancing the counter by 128, with 32-bit wrap, leaves every position unchanged |
| Patterns.SnakesWindow | cherryblossoms.c:29-41 | pixel `i + 1` at frame `t` equals pixel `i` at frame `t + 2`, also across the wrap of `t` |
| Patterns.SnakesPeriod | cherryblossoms.c:29-41 | every snakes pixel at frame `t + 128` equals the same pixel at frame `t`, also across the wrap of `t` |
| Patterns.RenderSnakes | cherryblossoms.c:29-41 | the loop appends to the channel exactly the wire words of the specified snakes frame of `len` pixels |
| Patterns.GreyLevel | cherryblossoms.c:58-62 | the counter value at pixel `i` is below 100 and equals `(t + i) mod 100` |
| Patterns.GreyLevelNext | cherryblossoms.c:62 | the counter at pixel `i + 1` is the counter at pixel `i` plus one, reset to 0 when it reaches 100 |
| Patterns.BlossomValue | cherryblossoms.c:61 | `urgb_u32(0xde, 0x31, 0x63)` is `0x31de63` |
| Patterns.BlossomChannels | cherryblossoms.c:54 | the blossom word has channels `(0xde, 0x31, 0x63)` and the dark word 0 has `(0, 0, 0)` |
| Patterns.GreysExact | cherryblossoms.c:61 | the 32-bit product never wraps: a greys pixel is exactly its level times `0x31de63` |
| Patterns.GreysFitIn24Bits | cherryblossoms.c:61 | a greys pixel fits in 24 bits if and only if its level is below 6 |
| Patterns.GreysCycle | cherryblossoms.c:59-62 | pixels 100 apart are equal, and pixel `i + 1` at frame `t` equals pixel `i` at frame `t + 1` while `t + 1` does not wrap |
| Patterns.RenderGreys | cherryblossoms.c:57-64 | the loop keeps its counter equal to the level of the current pixel and appends exactly the wire words of the specified greys frame |
| Patterns.SakuraSolid | cherryblossoms.c:66-68 | on a frame with `t % 8 == 0` every pixel has channels `(0xde, 0x31, 0x63)` |
| Patterns.RenderSakura | cherryblossoms.c:66-69 | appends nothing when `t % 8 != 0`, otherwise exactly the wire words of `len` blossom pixels |
| Patterns.SparkleLit | cherryblossoms.c:54 | a sparkle pixel is non-zero if and only if its draw is a multiple of 16, and it is then the blossom colour, otherwise dark |
| Patterns.RenderSparkle | cherryblossoms.c:50-55 | appends nothing and draws nothing when `t % 8 != 0`, otherwise the wire words of the specified sparkle frame, using one draw per pixel in order |
| Patterns.RandomOnWire | cherryblossoms.c:47 | a random pixel is sent as the low 24 bits of its draw shifted up by 8 bits, so the top 7 bits of the draw are lost |
| Patterns.RenderRandom | cherryblossoms.c:43-48 | appends nothing and draws nothing when `t % 8 != 0`, otherwise one word per pixel, each the draw at its position, using one draw per pixel |
| Patterns.FrameLength | cherryblossoms.c:29-69 | snakes and greys emit `len` pixels on every frame; sakura, sparkle and random emit `len` pixels when `t % 8 == 0` and none otherwise |
| Patterns.Render | cherryblossoms.c:71 | calling a pattern through the function-pointer type appends its frame and consumes exactly its draws |
| Driver.ChoosePattern | cherryblossoms.c:100 | `rand() % count_of(pattern_table)` is a valid table index, which selects sakura for even draws and sparkle for odd draws |
| Driver.ChooseDirection | cherryblossoms.c:101 | the direction is 1 or -1, and it is 1 exactly when bit 30 of the draw is set |
| Driver.ToUint | cherryblossoms.c:98-107 | passing the signed counter as `uint` keeps its residue modulo 8 |
| Driver.TableGating | cherryblossoms.c:75-78 | a table pattern called with the converted counter renders `len` pixels exactly when the signed counter is a multiple of 8, draws only for sparkle, and sends only blossom words (and, for sparkle, dark words) |
| Driver.RenderingSnoc | cherryblossoms.c:104-107 | counting rendering frames over one more step of `t += dir` adds that frame's hit |
| Driver.EightFrames | cherryblossoms.c:104-107 | any 8 consecutive values of the counter, in either direction, contain exactly one rendering frame |
| Driver.RenderingEvery8 | cherryblossoms.c:104-107 | any `8 m` consecutive frames, in either direction, contain exactly `m` rendering frames |
| Driver.RunFrame | cherryblossoms.c:105-107 | one inner-loop step appends the chosen pattern's frame, with `len` words exactly when `t % 8 == 0`, all of them blossom (or dark for sparkle), and steps `t` by `dir` |
| Driver.TableFrameOnWire | cherryblossoms.c:75-78 | on the wire a frame of a table pattern has 64 words exactly when the signed counter is a multiple of 8 and none otherwise, every word blossom (or dark for sparkle), and sparkle draws once per word |
| Driver.ChoiceRunSummary | cherryblossoms.c:104-107 | after `n` frames of a choice, in either direction, the counter has moved by `n` steps, 64 words were sent per rendering frame, all blossom (or dark for sparkle), and sparkle consumed one draw per word |
| Driver.RunChoice | cherryblossoms.c:104-108 | the loop appends exactly the words of the 1000 frames of `ChoiceRun`, frame by frame from the draws not yet used, and ends at its draw position; so `t` moves by `1000 * dir`, exactly `125 * 64` words follow what was sent, all blossom (or dark for sparkle), and sparkle consumes one draw per word |
| Driver.RunMainIteration | cherryblossoms.c:99-108 | one outer pass draws the pattern, then the direction, then appends exactly the words of the 1000 frames of `ChoiceRun` for that choice from the third draw on; `t` moves by 1000 forward exactly when bit 30 of the second draw is set, and an odd first draw selects sparkle |

## Left out

- PIO set-up and tear-down (`pio_claim_free_sm_and_add_program_for_gpio_range`, `hard_assert`, `ws2812_program_init`, `pio_remove_program_and_unclaim_sm`) are hardware calls, and the PIO program `ws2812.pio` is not part of this model.
- `pio_sm_put_blocking` is modelled as appending to a sequence: FIFO blocking, timing and the bit-level WS2812 protocol are not modelled.
- `rand()` is an oracle function. The generator itself and its seeding are not modelled, and only `RAND_MAX = 0x7fffffff` is assumed about it.
- `stdio_init_all`, `printf`, `puts` (the pattern names and directions printed) and `sleep_ms(10)` are I/O and timing with no effect on the pixel words.
- The compile-time pin check (`#if WS2812_PIN >= NUM_BANK0_GPIOS`) is a build-time condition.
- The outer `while (1)` never ends. It is modelled by one pass, `RunMainIteration`, which later passes repeat with the returned counter and oracle position.
- Driver.ToUint: the signed `int t` of `main` is an unbounded integer. After about `2^31` frames in one direction `t += dir` overflows a signed `int`, which C leaves undefined, so that case is not modelled.
- Patterns.GreysCycle: the frame-to-frame step is stated only while `t + 1` does not wrap. At the wrap of the `uint` counter, greys jumps, because `2^32 mod 100 = 96`.
- HSV colour conversion, per-pixel breathing state, a brightness filter and a sparkle mask held over several frames are not part of `cherryblossoms.c` and are not modelled.
