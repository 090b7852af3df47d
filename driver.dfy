/** The pattern table and the frame loop of `main`: a pattern and a direction
    are drawn from `rand()`, then the pattern is rendered for 1000 frames with
    the signed frame counter `t` stepping by the direction. */
module Driver {
  import opened Words
  import opened Color
  import opened Patterns

  /** `pattern_table`: the patterns `main` chooses between, with their names. */
  const PatternTable: seq<(Pattern, string)> := [(Sakura, "Sakura"), (Sparkle, "Sparkle")]

  /** `NUM_PIXELS`, the strip length `main` passes to every pattern. */
  const NumPixels: U32 := 64

  /** Frames per pattern choice. */
  const FramesPerChoice: nat := 1000

  /** `rand() % count_of(pattern_table)`: even draws pick sakura, odd draws sparkle. */
  function ChoosePattern(d: Draw): (k: nat)
    ensures k < |PatternTable|
    ensures PatternTable[k].0 == if d % 2 == 0 then Sakura else Sparkle
  {
    d % |PatternTable|
  }

  /** `(rand() >> 30) & 1 ? 1 : -1`: forward exactly when bit 30 of the draw is set. */
  function ChooseDirection(d: Draw): (dir: int)
    ensures dir == 1 || dir == -1
    ensures dir == 1 <==> d >= 0x4000_0000
  {
    Pow2Values();
    if Shr(d, 30) % 2 == 1 then 1 else -1
  }

  /** The conversion of the signed frame counter to the `uint` parameter of a
      pattern: the value modulo 2^32. */
  function ToUint(t: int): (u: U32)
    ensures u % 8 == t % 8
  {
    WrapKeepsResidue(t, 8, 0x2000_0000);
    t % TwoTo32
  }

  /** Both patterns of the table render on exactly the frames whose signed
      counter is a multiple of 8, whichever sign the counter has. */
  lemma TableGating(k: nat, t: int, len: U32, rand: nat -> Draw, pos: nat)
    requires k < |PatternTable|
    ensures |Frame(PatternTable[k].0, len, ToUint(t), rand, pos)| == if t % 8 == 0 then len else 0
    ensures DrawsUsed(PatternTable[k].0, len, ToUint(t)) ==
      if PatternTable[k].0 == Sparkle && t % 8 == 0 then len else 0
    ensures forall j :: 0 <= j < |Frame(PatternTable[k].0, len, ToUint(t), rand, pos)| ==>
      Frame(PatternTable[k].0, len, ToUint(t), rand, pos)[j] == Blossom ||
      (PatternTable[k].0 == Sparkle && Frame(PatternTable[k].0, len, ToUint(t), rand, pos)[j] == 0)
  {
    var u := ToUint(t);
    FrameLength(PatternTable[k].0, len, u, rand, pos);
    if k == 0 {
      SakuraWords(len, u);
    } else {
      SparkleWords(len, u, rand, pos);
    }
  }

  /** 1 when the counter value `t` is a rendering frame (`t % 8 == 0`), else 0. */
  function Hit(t: int): nat
  {
    if t % 8 == 0 then 1 else 0
  }

  /** How many of the `n` frames `t`, `t + dir`, `t + 2 * dir`, ... render. */
  function RenderingFrames(t: int, dir: int, n: nat): nat
    decreases n
  {
    if n == 0 then 0 else Hit(t) + RenderingFrames(t + dir, dir, n - 1)
  }

  lemma HitShift(t: int, j: int)
    ensures Hit(t + j) == Hit(t % 8 + j)
  {
    assert t == 8 * (t / 8) + t % 8;
    ModShift(t % 8 + j, 8, t / 8);
  }

  /** Near zero, the multiples of 8 are 0 and 8. */
  lemma HitSmall(x: int)
    requires -7 <= x <= 14
    ensures Hit(x) == if x == 0 || x == 8 then 1 else 0
  {
    if x < 0 {
      DivModUnique(x, 8, -1, x + 8);
    } else if x < 8 {
      DivModUnique(x, 8, 0, x);
    } else {
      DivModUnique(x, 8, 1, x - 8);
    }
  }

  /** Of eight consecutive counter values, exactly one is a multiple of 8. */
  lemma OneOfEight(t: int, dir: int)
    requires dir == 1 || dir == -1
    ensures Hit(t) + Hit(t + dir) + Hit(t + 2 * dir) + Hit(t + 3 * dir)
      + Hit(t + 4 * dir) + Hit(t + 5 * dir) + Hit(t + 6 * dir) + Hit(t + 7 * dir) == 1
  {
    var r := t % 8;
    HitShift(t, 0);
    HitShift(t, dir);
    HitShift(t, 2 * dir);
    HitShift(t, 3 * dir);
    HitShift(t, 4 * dir);
    HitShift(t, 5 * dir);
    HitShift(t, 6 * dir);
    HitShift(t, 7 * dir);
    HitSmall(r);
    HitSmall(r + dir);
    HitSmall(r + 2 * dir);
    HitSmall(r + 3 * dir);
    HitSmall(r + 4 * dir);
    HitSmall(r + 5 * dir);
    HitSmall(r + 6 * dir);
    HitSmall(r + 7 * dir);
  }

  lemma {:induction false} EightFrames(t: int, dir: int, n: nat)
    requires dir == 1 || dir == -1
    ensures RenderingFrames(t, dir, n + 8) == 1 + RenderingFrames(t + 8 * dir, dir, n)
  {
    OneOfEight(t, dir);
    assert RenderingFrames(t, dir, n + 8) == Hit(t) + RenderingFrames(t + dir, dir, n + 7);
    assert RenderingFrames(t + dir, dir, n + 7) == Hit(t + dir) + RenderingFrames(t + 2 * dir, dir, n + 6);
    assert RenderingFrames(t + 2 * dir, dir, n + 6) == Hit(t + 2 * dir) + RenderingFrames(t + 3 * dir, dir, n + 5);
    assert RenderingFrames(t + 3 * dir, dir, n + 5) == Hit(t + 3 * dir) + RenderingFrames(t + 4 * dir, dir, n + 4);
    assert RenderingFrames(t + 4 * dir, dir, n + 4) == Hit(t + 4 * dir) + RenderingFrames(t + 5 * dir, dir, n + 3);
    assert RenderingFrames(t + 5 * dir, dir, n + 3) == Hit(t + 5 * dir) + RenderingFrames(t + 6 * dir, dir, n + 2);
    assert RenderingFrames(t + 6 * dir, dir, n + 2) == Hit(t + 6 * dir) + RenderingFrames(t + 7 * dir, dir, n + 1);
    assert RenderingFrames(t + 7 * dir, dir, n + 1) == Hit(t + 7 * dir) + RenderingFrames(t + 8 * dir, dir, n);
  }

  /** Extending a run by one frame adds that frame's hit. */
  lemma {:induction false} RenderingSnoc(t: int, dir: int, n: nat, last: int)
    requires dir == 1 || dir == -1
    requires last == if dir == 1 then t + n else t - n
    ensures RenderingFrames(t, dir, n + 1) == RenderingFrames(t, dir, n) + Hit(last)
    decreases n
  {
    if n > 0 {
      RenderingSnoc(t + dir, dir, n - 1, last);
    }
  }

  /** Any run of `8 * m` frames renders exactly `m` of them. */
  lemma {:induction false} RenderingEvery8(t: int, dir: int, m: nat)
    requires dir == 1 || dir == -1
    ensures RenderingFrames(t, dir, 8 * m) == m
    decreases m
  {
    if m > 0 {
      EightFrames(t, dir, 8 * (m - 1));
      RenderingEvery8(t + 8 * dir, dir, m - 1);
    }
  }

  /** Every word of `wire` is the blossom colour as sent, or, when `sparkle`
      holds, zero. */
  predicate BlossomOrDark(wire: seq<U32>, sparkle: bool)
  {
    forall j :: 0 <= j < |wire| ==> wire[j] == Transmit(Blossom) || (sparkle && wire[j] == 0)
  }

  lemma BlossomOrDarkAppend(a: seq<U32>, b: seq<U32>, sparkle: bool)
    requires BlossomOrDark(a, sparkle) && BlossomOrDark(b, sparkle)
    ensures BlossomOrDark(a + b, sparkle)
  {
  }

  /** On the wire a frame of blossom words (and, for sparkle, zeros) stays
      blossom words and zeros. */
  lemma BlossomOnWire(frame: seq<U32>, sparkle: bool)
    requires forall j :: 0 <= j < |frame| ==> frame[j] == Blossom || (sparkle && frame[j] == 0)
    ensures BlossomOrDark(Emit(frame), sparkle)
  {
    TransmitZero();
  }

  /** `n * len`, as the sum of `n` frames of `len` pixels. */
  function Times(n: nat, len: nat): nat
  {
    if n == 0 then 0 else Times(n - 1, len) + len
  }

  lemma {:induction false} TimesIsProduct(n: nat, len: nat)
    ensures Times(n, len) == n * len
  {
    if n > 0 {
      TimesIsProduct(n - 1, len);
    }
  }

  /** One pass of the inner `for` loop of `main`: render the chosen table
      pattern with the counter converted to `uint`, then step the counter. A
      frame is drawn exactly when `t % 8 == 0`, and every word it sends is the
      blossom colour or, for sparkle, dark. */
  method RunFrame(k: nat, dir: int, sent: seq<U32>, len: U32, t: int, rand: nat -> Draw, pos: nat)
    returns (out: seq<U32>, t': int, next: nat)
    requires k < |PatternTable|
    ensures out == sent + Emit(Frame(PatternTable[k].0, len, ToUint(t), rand, pos))
    ensures t' == t + dir
    ensures |out| == |sent| + if t % 8 == 0 then len else 0
    ensures next == pos + DrawsUsed(PatternTable[k].0, len, ToUint(t))
    ensures next == pos + if PatternTable[k].0 == Sparkle then |out| - |sent| else 0
    ensures out[..|sent|] == sent && BlossomOrDark(out[|sent|..], PatternTable[k].0 == Sparkle)
  {
    var p := PatternTable[k].0;
    TableGating(k, t, len, rand, pos);
    BlossomOnWire(Frame(p, len, ToUint(t), rand, pos), p == Sparkle);
    out, next := Render(p, sent, len, ToUint(t), rand, pos);
    assert out[|sent|..] == Emit(Frame(p, len, ToUint(t), rand, pos));
    t' := t + dir;
  }

  /** The words sent, the counter reached and the next unread draw after
      `n` frames of one choice. */
  datatype Run = Run(words: seq<U32>, t: int, next: nat)

  /** `n` passes of the inner loop of `main` from counter `t` and draw
      position `pos`: each frame renders the chosen table pattern with the
      counter converted to `uint` and the draws not used so far. */
  function ChoiceRun(k: nat, dir: int, t: int, rand: nat -> Draw, pos: nat, n: nat): Run
    requires k < |PatternTable|
    decreases n
  {
    if n == 0 then Run([], t, pos)
    else
      var r := ChoiceRun(k, dir, t, rand, pos, n - 1);
      var p := PatternTable[k].0;
      Run(r.words + Emit(Frame(p, NumPixels, ToUint(r.t), rand, r.next)),
          r.t + dir,
          r.next + DrawsUsed(p, NumPixels, ToUint(r.t)))
  }

  /** The inner `for` loop of `main`: render the chosen table pattern for 1000
      frames, stepping `t` by `dir` after each. The words sent and the draws
      used are exactly those of `ChoiceRun`; whatever the start and the
      direction, 125 frames are drawn, each of `NUM_PIXELS` pixels, every word
      sent is the blossom colour or (for sparkle) dark, and sparkle consumes
      one draw per pixel drawn. */
  method RunChoice(k: nat, dir: int, sent: seq<U32>, t: int, rand: nat -> Draw, pos: nat)
    returns (out: seq<U32>, t': int, next: nat)
    requires k < |PatternTable|
    requires dir == 1 || dir == -1
    ensures out == sent + ChoiceRun(k, dir, t, rand, pos, FramesPerChoice).words
    ensures next == ChoiceRun(k, dir, t, rand, pos, FramesPerChoice).next
    ensures t' == t + 1000 * dir
    ensures |out| == |sent| + 125 * NumPixels && out[..|sent|] == sent
    ensures BlossomOrDark(out[|sent|..], PatternTable[k].0 == Sparkle)
    ensures next == pos + if PatternTable[k].0 == Sparkle then 125 * NumPixels else 0
  {
    out, t', next := sent, t, pos;
    var i := 0;
    while i < FramesPerChoice
      invariant 0 <= i <= FramesPerChoice
      invariant |sent| <= |out| && out[..|sent|] == sent
      invariant ChoiceRun(k, dir, t, rand, pos, i).words == out[|sent|..]
      invariant ChoiceRun(k, dir, t, rand, pos, i).t == t'
      invariant ChoiceRun(k, dir, t, rand, pos, i).next == next
    {
      ghost var mid := out;
      out, t', next := RunFrame(k, dir, out, NumPixels, t', rand, next);
      ChoiceRunStep(k, dir, t, rand, pos, i, sent, mid, out);
      i := i + 1;
    }
    ChoiceTotals(k, dir, t, rand, pos);
    PrefixSplit(sent, out);
  }

  lemma PrefixSplit(sent: seq<U32>, out: seq<U32>)
    requires |sent| <= |out| && out[..|sent|] == sent
    ensures out == sent + out[|sent|..]
  {
    assert out == out[..|sent|] + out[|sent|..];
  }

  /** The totals of the 1000 frames of a choice. */
  lemma ChoiceTotals(k: nat, dir: int, t: int, rand: nat -> Draw, pos: nat)
    requires k < |PatternTable|
    requires dir == 1 || dir == -1
    ensures ChoiceRun(k, dir, t, rand, pos, FramesPerChoice).t == t + 1000 * dir
    ensures |ChoiceRun(k, dir, t, rand, pos, FramesPerChoice).words| == 125 * NumPixels
    ensures BlossomOrDark(ChoiceRun(k, dir, t, rand, pos, FramesPerChoice).words, PatternTable[k].0 == Sparkle)
    ensures ChoiceRun(k, dir, t, rand, pos, FramesPerChoice).next ==
      pos + if PatternTable[k].0 == Sparkle then 125 * NumPixels else 0
  {
    ChoiceRunSummary(k, dir, t, rand, pos, FramesPerChoice);
    RenderingEvery8(t, dir, 125);
    TimesIsProduct(125, NumPixels);
  }

  /** Whatever the start and the direction, the first `n` frames of a choice
      step the counter `n` times, send `len` words for each rendering frame,
      all of them blossom (or, for sparkle, dark), and sparkle consumes one
      draw per word sent. */
  lemma {:induction false} ChoiceRunSummary(k: nat, dir: int, t: int, rand: nat -> Draw, pos: nat, n: nat)
    requires k < |PatternTable|
    requires dir == 1 || dir == -1
    ensures ChoiceRun(k, dir, t, rand, pos, n).t == if dir == 1 then t + n else t - n
    ensures |ChoiceRun(k, dir, t, rand, pos, n).words| == Times(RenderingFrames(t, dir, n), NumPixels)
    ensures BlossomOrDark(ChoiceRun(k, dir, t, rand, pos, n).words, PatternTable[k].0 == Sparkle)
    ensures ChoiceRun(k, dir, t, rand, pos, n).next ==
      pos + if PatternTable[k].0 == Sparkle then |ChoiceRun(k, dir, t, rand, pos, n).words| else 0
    decreases n
  {
    if n > 0 {
      ChoiceRunSummary(k, dir, t, rand, pos, n - 1);
      SummaryStep(k, dir, t, rand, pos, n - 1, ChoiceRun(k, dir, t, rand, pos, n - 1));
    }
  }

  /** One more frame keeps the facts of `ChoiceRunSummary`. */
  lemma SummaryStep(k: nat, dir: int, t: int, rand: nat -> Draw, pos: nat, n: nat, r: Run)
    requires k < |PatternTable|
    requires dir == 1 || dir == -1
    requires r.t == if dir == 1 then t + n else t - n
    requires |r.words| == Times(RenderingFrames(t, dir, n), NumPixels)
    requires BlossomOrDark(r.words, PatternTable[k].0 == Sparkle)
    requires r.next == pos + if PatternTable[k].0 == Sparkle then |r.words| else 0
    ensures var p := PatternTable[k].0;
      var w := r.words + Emit(Frame(p, NumPixels, ToUint(r.t), rand, r.next));
      var next := r.next + DrawsUsed(p, NumPixels, ToUint(r.t));
      r.t + dir == (if dir == 1 then t + (n + 1) else t - (n + 1)) &&
      |w| == Times(RenderingFrames(t, dir, n + 1), NumPixels) &&
      BlossomOrDark(w, p == Sparkle) &&
      next == pos + if p == Sparkle then |w| else 0
  {
    var p, sparkle := PatternTable[k].0, PatternTable[k].0 == Sparkle;
    var wire := Emit(Frame(p, NumPixels, ToUint(r.t), rand, r.next));
    TableFrameOnWire(k, r.t, rand, r.next);
    RenderingSnoc(t, dir, n, r.t);
    BlossomOrDarkAppend(r.words, wire, sparkle);
    var drawn := RenderingFrames(t, dir, n);
    if r.t % 8 == 0 {
      assert Times(drawn + 1, NumPixels) == Times(drawn, NumPixels) + NumPixels;
    }
  }

  /** The wire words of one frame of a table pattern: `NUM_PIXELS` words when
      the signed counter is a multiple of 8 and none otherwise, all blossom or
      (for sparkle) dark, with one draw per word for sparkle. */
  lemma TableFrameOnWire(k: nat, t: int, rand: nat -> Draw, pos: nat)
    requires k < |PatternTable|
    ensures var p := PatternTable[k].0;
      var wire := Emit(Frame(p, NumPixels, ToUint(t), rand, pos));
      |wire| == (if t % 8 == 0 then NumPixels else 0) &&
      BlossomOrDark(wire, p == Sparkle) &&
      DrawsUsed(p, NumPixels, ToUint(t)) == if p == Sparkle then |wire| else 0
  {
    var p := PatternTable[k].0;
    TableGating(k, t, NumPixels, rand, pos);
    BlossomOnWire(Frame(p, NumPixels, ToUint(t), rand, pos), p == Sparkle);
  }

  lemma ChoiceRunStep(k: nat, dir: int, t: int, rand: nat -> Draw, pos: nat, i: nat,
                      sent: seq<U32>, mid: seq<U32>, out: seq<U32>)
    requires k < |PatternTable|
    requires |sent| <= |mid| && mid[..|sent|] == sent
    requires ChoiceRun(k, dir, t, rand, pos, i).words == mid[|sent|..]
    requires out == mid + Emit(Frame(PatternTable[k].0, NumPixels, ToUint(ChoiceRun(k, dir, t, rand, pos, i).t),
                                     rand, ChoiceRun(k, dir, t, rand, pos, i).next))
    ensures |sent| <= |out| && out[..|sent|] == sent
    ensures ChoiceRun(k, dir, t, rand, pos, i + 1).words == out[|sent|..]
    ensures ChoiceRun(k, dir, t, rand, pos, i + 1).t == ChoiceRun(k, dir, t, rand, pos, i).t + dir
    ensures ChoiceRun(k, dir, t, rand, pos, i + 1).next ==
      ChoiceRun(k, dir, t, rand, pos, i).next +
      DrawsUsed(PatternTable[k].0, NumPixels, ToUint(ChoiceRun(k, dir, t, rand, pos, i).t))
  {
    var r := ChoiceRun(k, dir, t, rand, pos, i);
    var e := Emit(Frame(PatternTable[k].0, NumPixels, ToUint(r.t), rand, r.next));
    assert out[..|sent|] == mid[..|sent|];
    assert out[|sent|..] == mid[|sent|..] + e;
  }

  /** One pass of the outer `while` loop of `main`: draw the pattern index,
      then the direction, then run the 1000 frames of that choice. */
  method RunMainIteration(sent: seq<U32>, t: int, rand: nat -> Draw, pos: nat)
    returns (out: seq<U32>, t': int, next: nat)
    ensures var dir := ChooseDirection(rand(pos + 1));
      t' == t + 1000 * dir && (dir == 1 <==> rand(pos + 1) >= 0x4000_0000)
    ensures out == sent + ChoiceRun(ChoosePattern(rand(pos)), ChooseDirection(rand(pos + 1)), t, rand, pos + 2,
                                    FramesPerChoice).words
    ensures next == ChoiceRun(ChoosePattern(rand(pos)), ChooseDirection(rand(pos + 1)), t, rand, pos + 2,
                              FramesPerChoice).next
    ensures |out| == |sent| + 125 * NumPixels && out[..|sent|] == sent
    ensures var sparkle := rand(pos) % 2 == 1;
      BlossomOrDark(out[|sent|..], sparkle) &&
      next == pos + 2 + if sparkle then 125 * NumPixels else 0
  {
    var k := ChoosePattern(rand(pos));
    var dir := ChooseDirection(rand(pos + 1));
    assert PatternTable[k].0 == Sparkle <==> rand(pos) % 2 == 1;
    out, t', next := RunChoice(k, dir, sent, t, rand, pos + 2);
  }
}
