/** The five pattern renderers of the WS2812 driver. Each renderer takes the
    number of pixels `len` and the frame counter `t`, and pushes one word per
    pixel through `put_pixel`. The emission channel is modelled as the
    sequence of words pushed so far (`sent`); a renderer returns it with its
    own words appended. `rand()` is an oracle `rand` read at positions
    `pos`, `pos + 1`, ...; a renderer that draws returns the next unread
    position. */
module Patterns {
  import opened Words
  import opened Color

  /** `RAND_MAX` of the C library the firmware links against (newlib). */
  const RandMax: int := 0x7fff_ffff

  /** One value returned by `rand()`. */
  type Draw = x: int | 0 <= x <= RandMax

  /** `urgb_u32(0xde, 0x31, 0x63)`, the blossom colour used by sakura,
      sparkle and greys. */
  const Blossom: U32 := Urgb(0xde, 0x31, 0x63)

  datatype Pattern = Snakes | Random | Sparkle | Greys | Sakura

  /** `put_pixel`: append the shifted word to the emission channel. */
  function PutPixel(sent: seq<U32>, pixel_grb: U32): seq<U32>
  {
    sent + [Transmit(pixel_grb)]
  }

  /** What a frame of pixel words looks like on the wire. */
  function Emit(frame: seq<U32>): seq<U32>
  {
    seq(|frame|, k requires 0 <= k < |frame| => Transmit(frame[k]))
  }

  lemma EmitSnoc(frame: seq<U32>, w: U32)
    ensures Emit(frame + [w]) == Emit(frame) + [Transmit(w)]
  {
  }

  /** The colour channels of a word, red, green and blue. */
  function Channels(w: U32): (U8, U8, U8)
  {
    (RedOf(w), GreenOf(w), BlueOf(w))
  }

  // ---------------------------------------------------------------- snakes

  /** `(i + (t >> 1)) % 64` in 32-bit arithmetic. The sum may wrap, but as 64
      divides 2^32 the position is the same as without wrap-around. */
  function SnakesPos(i: U32, t: U32): (x: nat)
    ensures x < 64
    ensures x == (i + t / 2) % 64
  {
    assert Pow2(1) == 2;
    WrapKeepsResidue(i + Shr(t, 1), 64, 0x400_0000);
    Add32(i, Shr(t, 1)) % 64
  }

  /** The colour bands of `pattern_snakes` by position. */
  function SnakesColour(x: nat): U32
  {
    if x < 10 then Urgb(0xff, 0, 0)
    else if x >= 15 && x < 25 then Urgb(0, 0xff, 0)
    else if x >= 30 && x < 40 then Urgb(0, 0, 0xff)
    else 0
  }

  function SnakesPixel(i: U32, t: U32): U32
  {
    SnakesColour(SnakesPos(i, t))
  }

  function SnakesFrame(len: U32, t: U32): seq<U32>
  {
    seq(len, i requires 0 <= i < len => SnakesPixel(i, t))
  }

  /** Three bands of full red, full green and full blue, each ten positions
      wide with a five-position gap, dark elsewhere. */
  lemma SnakesBands(i: U32, t: U32)
    ensures var x := (i + t / 2) % 64;
      Channels(SnakesPixel(i, t)) ==
        (if x < 10 then 0xff else 0,
         if 15 <= x < 25 then 0xff else 0,
         if 30 <= x < 40 then 0xff else 0)
    ensures SnakesPixel(i, t) < 0x100_0000
  {
    UrgbRoundTrip(0xff, 0, 0);
    UrgbRoundTrip(0, 0xff, 0);
    UrgbRoundTrip(0, 0, 0xff);
    UrgbRoundTrip(0, 0, 0);
  }

  /** Stepping the frame counter by two moves a position one place along. */
  lemma SnakesPosStep(i: U32, t: U32)
    requires i + 1 < TwoTo32
    ensures SnakesPos(i + 1, t) == SnakesPos(i, Add32(t, 2))
  {
    var t' := Add32(t, 2);
    if t + 2 >= TwoTo32 {
      DivModUnique(t', 2, t / 2 + 1 - 0x8000_0000, t % 2);
      ModShift(i + t' / 2, 64, 0x200_0000);
    } else {
      DivModUnique(t', 2, t / 2 + 1, t % 2);
    }
  }

  /** Stepping the frame counter by 128 leaves every position where it is. */
  lemma SnakesPosPeriod(i: U32, t: U32)
    ensures SnakesPos(i, Add32(t, 128)) == SnakesPos(i, t)
  {
    var t' := Add32(t, 128);
    if t + 128 >= TwoTo32 {
      DivModUnique(t', 2, t / 2 + 64 - 0x8000_0000, t % 2);
      ModShift(i + t' / 2, 64, 0x200_0000 - 1);
    } else {
      DivModUnique(t', 2, t / 2 + 64, t % 2);
      ModShift(i + t / 2, 64, 1);
    }
  }

  /** The snakes move one pixel along the strip every two frames, including
      across the wrap-around of the frame counter. */
  lemma SnakesWindow(i: U32, t: U32)
    requires i + 1 < TwoTo32
    ensures SnakesPixel(i + 1, t) == SnakesPixel(i, Add32(t, 2))
  {
    SnakesPosStep(i, t);
  }

  /** The pattern repeats every 128 frames, including across the wrap-around
      of the frame counter. */
  lemma SnakesPeriod(i: U32, t: U32)
    ensures SnakesPixel(i, Add32(t, 128)) == SnakesPixel(i, t)
  {
    SnakesPosPeriod(i, t);
  }

  lemma SnakesFrameSnoc(i: U32, t: U32)
    requires i + 1 < TwoTo32
    ensures SnakesFrame(i + 1, t) == SnakesFrame(i, t) + [SnakesPixel(i, t)]
  {
    var longer, shorter := SnakesFrame(i + 1, t), SnakesFrame(i, t);
    assert |longer| == |shorter| + 1;
    forall j | 0 <= j < |longer|
      ensures longer[j] == (shorter + [SnakesPixel(i, t)])[j]
    {
    }
  }

  method RenderSnakes(sent: seq<U32>, len: U32, t: U32) returns (out: seq<U32>)
    ensures out == sent + Emit(SnakesFrame(len, t))
  {
    out := sent;
    var i: U32 := 0;
    while i < len
      invariant i <= len
      invariant out == sent + Emit(SnakesFrame(i, t))
    {
      var x := Add32(i, Shr(t, 1)) % 64;
      if x < 10 {
        out := PutPixel(out, Urgb(0xff, 0, 0));
      } else if x >= 15 && x < 25 {
        out := PutPixel(out, Urgb(0, 0xff, 0));
      } else if x >= 30 && x < 40 {
        out := PutPixel(out, Urgb(0, 0, 0xff));
      } else {
        out := PutPixel(out, 0);
      }
      SnakesFrameSnoc(i, t);
      EmitSnoc(SnakesFrame(i, t), SnakesPixel(i, t));
      i := i + 1;
    }
  }

  // ----------------------------------------------------------------- greys

  /** The value of the running counter of `pattern_greys` at pixel `i`. */
  function GreyLevel(i: U32, t: U32): (c: nat)
    ensures c < 100
    ensures c == (t + i) % 100
  {
    ModShift(t % 100 + i, 100, t / 100);
    (t % 100 + i) % 100
  }

  /** `if (++t >= max) t = 0;` */
  lemma GreyLevelNext(i: U32, t: U32)
    requires i + 1 < TwoTo32
    ensures GreyLevel(i + 1, t) == if GreyLevel(i, t) + 1 >= 100 then 0 else GreyLevel(i, t) + 1
  {
    var c := GreyLevel(i, t);
    var q := (t + i) / 100;
    assert t + i == 100 * q + c;
    if c + 1 >= 100 {
      DivModUnique(t + i + 1, 100, q + 1, 0);
    } else {
      DivModUnique(t + i + 1, 100, q, c + 1);
    }
  }

  function GreysPixel(i: U32, t: U32): U32
  {
    Mul32(GreyLevel(i, t), Blossom)
  }

  lemma BlossomValue()
    ensures Blossom == 0x31_de63
  {
  }

  /** The channels of the blossom colour and of a dark pixel. */
  lemma BlossomChannels()
    ensures Channels(Blossom) == (0xde, 0x31, 0x63)
    ensures Channels(0) == (0, 0, 0)
  {
    UrgbRoundTrip(0xde, 0x31, 0x63);
    UrgbRoundTrip(0, 0, 0);
  }

  function GreysFrame(len: U32, t: U32): seq<U32>
  {
    seq(len, i requires 0 <= i < len => GreysPixel(i, t))
  }

  /** The product never wraps: each pixel is the exact integer multiple of
      the blossom word. */
  lemma GreysExact(i: U32, t: U32)
    ensures GreysPixel(i, t) == GreyLevel(i, t) * 0x31_de63
  {
    BlossomValue();
  }

  /** The multiple fits in the 24 colour bits only for levels 0 to 5; from
      level 6 on bits 24-31 are set and `put_pixel` shifts them out. */
  lemma GreysFitIn24Bits(i: U32, t: U32)
    ensures GreysPixel(i, t) < 0x100_0000 <==> GreyLevel(i, t) < 6
  {
    GreysExact(i, t);
  }

  /** The counter cycles: pixels 100 apart show the same level, and the
      level at pixel `i + 1` of frame `t` is that of pixel `i` of frame
      `t + 1` while the frame counter does not wrap. */
  lemma {:induction false} GreysCycle(i: U32, t: U32)
    ensures i + 100 < TwoTo32 ==> GreysPixel(i + 100, t) == GreysPixel(i, t)
    ensures i + 1 < TwoTo32 && t + 1 < TwoTo32 ==> GreysPixel(i + 1, t) == GreysPixel(i, t + 1)
  {
    ModShift(t + i, 100, 1);
  }

  lemma GreysFrameSnoc(i: U32, t: U32)
    requires i + 1 < TwoTo32
    ensures Emit(GreysFrame(i + 1, t)) == Emit(GreysFrame(i, t)) + [Transmit(GreysPixel(i, t))]
  {
    assert GreysFrame(i + 1, t) == GreysFrame(i, t) + [GreysPixel(i, t)];
    EmitSnoc(GreysFrame(i, t), GreysPixel(i, t));
  }

  method RenderGreys(sent: seq<U32>, len: U32, t: U32) returns (out: seq<U32>)
    ensures out == sent + Emit(GreysFrame(len, t))
  {
    out := sent;
    var max: U32 := 100;
    var c: U32 := t % max;
    var i: U32 := 0;
    assert c == GreyLevel(0, t);
    while i < len
      invariant i <= len
      invariant c == GreyLevel(i, t)
      invariant out == sent + Emit(GreysFrame(i, t))
    {
      out := PutPixel(out, Mul32(c, Blossom));
      GreysFrameSnoc(i, t);
      GreyLevelNext(i, t);
      c := c + 1;
      if c >= max {
        c := 0;
      }
      i := i + 1;
    }
  }

  // ---------------------------------------------------------------- sakura

  function SakuraFrame(len: U32, t: U32): seq<U32>
  {
    if t % 8 != 0 then [] else seq(len, i requires 0 <= i < len => Blossom)
  }

  /** On a rendering frame every pixel is the blossom colour. */
  lemma SakuraSolid(len: U32, t: U32, k: nat)
    requires t % 8 == 0 && k < len
    ensures Channels(SakuraFrame(len, t)[k]) == (0xde, 0x31, 0x63)
  {
    BlossomChannels();
  }

  lemma SakuraWords(len: U32, t: U32)
    ensures forall j :: 0 <= j < |SakuraFrame(len, t)| ==> SakuraFrame(len, t)[j] == Blossom
  {
  }

  method RenderSakura(sent: seq<U32>, len: U32, t: U32) returns (out: seq<U32>)
    ensures out == sent + Emit(SakuraFrame(len, t))
  {
    out := sent;
    if t % 8 != 0 {
      return;
    }
    var i: U32 := 0;
    while i < len
      invariant i <= len
      invariant out == sent + Emit(SakuraFrame(i, t))
    {
      out := PutPixel(out, Blossom);
      assert SakuraFrame(i + 1, t) == SakuraFrame(i, t) + [Blossom];
      EmitSnoc(SakuraFrame(i, t), Blossom);
      i := i + 1;
    }
  }

  // --------------------------------------------------------------- sparkle

  /** Each pixel is `rand() % 16 ? 0 : urgb_u32(0xde, 0x31, 0x63)`. */
  function SparklePixel(d: Draw): U32
  {
    if d % 16 != 0 then 0 else Blossom
  }

  function SparkleFrame(len: U32, t: U32, rand: nat -> Draw, pos: nat): seq<U32>
  {
    if t % 8 != 0 then []
    else seq<U32>(len, (i: nat) requires i < len => SparklePixel(rand(pos + i)))
  }

  /** On a rendering frame a pixel is lit, in the blossom colour, exactly when
      its draw is a multiple of 16, and dark otherwise. */
  lemma SparkleLit(len: U32, t: U32, rand: nat -> Draw, pos: nat, k: nat)
    requires t % 8 == 0 && k < len
    ensures SparkleFrame(len, t, rand, pos)[k] != 0 <==> rand(pos + k) % 16 == 0
    ensures Channels(SparkleFrame(len, t, rand, pos)[k]) ==
      if rand(pos + k) % 16 == 0 then (0xde, 0x31, 0x63) else (0, 0, 0)
  {
    var w := SparkleFrame(len, t, rand, pos)[k];
    assert w == SparklePixel(rand(pos + k));
    BlossomValue();
    BlossomChannels();
  }

  lemma SparkleFrameSnoc(i: U32, t: U32, rand: nat -> Draw, pos: nat)
    requires t % 8 == 0 && i + 1 < TwoTo32
    ensures SparkleFrame(i + 1, t, rand, pos) == SparkleFrame(i, t, rand, pos) + [SparklePixel(rand(pos + i))]
  {
    var longer := SparkleFrame(i + 1, t, rand, pos);
    var shorter := SparkleFrame(i, t, rand, pos);
    assert |longer| == |shorter| + 1;
    forall j | 0 <= j < |longer|
      ensures longer[j] == (shorter + [SparklePixel(rand(pos + i))])[j]
    {
    }
  }

  lemma SparkleWords(len: U32, t: U32, rand: nat -> Draw, pos: nat)
    ensures forall j :: 0 <= j < |SparkleFrame(len, t, rand, pos)| ==>
      SparkleFrame(len, t, rand, pos)[j] == Blossom || SparkleFrame(len, t, rand, pos)[j] == 0
  {
    forall j | 0 <= j < |SparkleFrame(len, t, rand, pos)|
      ensures SparkleFrame(len, t, rand, pos)[j] == SparklePixel(rand(pos + j))
    {
    }
  }

  method RenderSparkle(sent: seq<U32>, len: U32, t: U32, rand: nat -> Draw, pos: nat)
    returns (out: seq<U32>, next: nat)
    ensures out == sent + Emit(SparkleFrame(len, t, rand, pos))
    ensures next == pos + DrawsUsed(Sparkle, len, t)
  {
    out, next := sent, pos;
    if t % 8 != 0 {
      return;
    }
    var i: U32 := 0;
    while i < len
      invariant i <= len && next == pos + i
      invariant out == sent + Emit(SparkleFrame(i, t, rand, pos))
    {
      var d := rand(next);
      next := next + 1;
      SparkleFrameSnoc(i, t, rand, pos);
      EmitSnoc(SparkleFrame(i, t, rand, pos), SparklePixel(d));
      out := PutPixel(out, SparklePixel(d));
      i := i + 1;
    }
  }

  // ---------------------------------------------------------------- random

  function RandomFrame(len: U32, t: U32, rand: nat -> Draw, pos: nat): seq<U32>
  {
    if t % 8 != 0 then [] else seq(len, (i: nat) requires i < len => rand(pos + i) as U32)
  }

  /** On the wire a random pixel keeps only the low 24 bits of its draw; the
      top seven bits of `rand()` are shifted out. */
  lemma RandomOnWire(len: U32, t: U32, rand: nat -> Draw, pos: nat, k: nat)
    requires t % 8 == 0 && k < len
    ensures Emit(RandomFrame(len, t, rand, pos))[k] == (rand(pos + k) % 0x100_0000) * 0x100
  {
    var v := Emit(RandomFrame(len, t, rand, pos))[k];
    assert v == 0x100 * (v / 0x100) + v % 0x100;
  }

  method RenderRandom(sent: seq<U32>, len: U32, t: U32, rand: nat -> Draw, pos: nat)
    returns (out: seq<U32>, next: nat)
    ensures out == sent + Emit(RandomFrame(len, t, rand, pos))
    ensures next == pos + DrawsUsed(Random, len, t)
  {
    out, next := sent, pos;
    if t % 8 != 0 {
      return;
    }
    var i: U32 := 0;
    while i < len
      invariant i <= len && next == pos + i
      invariant out == sent + Emit(RandomFrame(i, t, rand, pos))
    {
      var d := rand(next);
      next := next + 1;
      out := PutPixel(out, d);
      assert RandomFrame(i + 1, t, rand, pos) == RandomFrame(i, t, rand, pos) + [d];
      EmitSnoc(RandomFrame(i, t, rand, pos), d);
      i := i + 1;
    }
  }

  // ------------------------------------------------------------- dispatch

  /** The pixel words a pattern produces for one frame. */
  function Frame(p: Pattern, len: U32, t: U32, rand: nat -> Draw, pos: nat): seq<U32>
  {
    match p
    case Snakes => SnakesFrame(len, t)
    case Random => RandomFrame(len, t, rand, pos)
    case Sparkle => SparkleFrame(len, t, rand, pos)
    case Greys => GreysFrame(len, t)
    case Sakura => SakuraFrame(len, t)
  }

  /** How many times a pattern calls `rand()` in one frame. */
  function DrawsUsed(p: Pattern, len: U32, t: U32): nat
  {
    if (p == Random || p == Sparkle) && t % 8 == 0 then len else 0
  }

  /** Snakes and greys draw a full frame of `len` pixels every frame; sakura,
      sparkle and random draw a full frame when `t % 8 == 0` and nothing
      otherwise. */
  lemma FrameLength(p: Pattern, len: U32, t: U32, rand: nat -> Draw, pos: nat)
    ensures |Frame(p, len, t, rand, pos)| ==
      if p == Snakes || p == Greys || t % 8 == 0 then len else 0
  {
  }

  /** Calling through the `pattern` function-pointer type. */
  method Render(p: Pattern, sent: seq<U32>, len: U32, t: U32, rand: nat -> Draw, pos: nat)
    returns (out: seq<U32>, next: nat)
    ensures out == sent + Emit(Frame(p, len, t, rand, pos))
    ensures next == pos + DrawsUsed(p, len, t)
  {
    next := pos;
    match p
    case Snakes => out := RenderSnakes(sent, len, t);
    case Random => out, next := RenderRandom(sent, len, t, rand, pos);
    case Sparkle => out, next := RenderSparkle(sent, len, t, rand, pos);
    case Greys => out := RenderGreys(sent, len, t);
    case Sakura => out := RenderSakura(sent, len, t);
  }
}
