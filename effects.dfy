/** The effect helpers built on the buffer operations: FadeOut, the one-time layouts that Rainbow
    and RandomTwoColorFade paint before they start scrolling, one scrolling tick, RandomColor, and
    the start-up clearing of the buffer. */
module Effects {
  import opened StripBuffer
  import opened SpiFrame

  const FADE_VAL: Byte := 1
  const FAST_FADE_VAL: Byte := 16

  // ---------------------------------------------------------------- FadeOut

  /** FadeOut: sixteen rounds of fadeBuffer(FAST_FADE_VAL) followed by displayBuffer. Returns the
      sixteen frames sent; the last one shows a dark strip. */
  method FadeOut(buffer: array<Byte>) returns (frames: seq<seq<Byte>>)
    requires buffer.Length == BUFFER_LEN
    modifies buffer
    ensures buffer[..] == FadedTimes(old(buffer[..]), FAST_FADE_VAL, 16)
    ensures forall k :: 0 <= k < BUFFER_LEN ==> buffer[k] == 0
    ensures |frames| == 16
    ensures forall n :: 0 <= n < 16 ==> frames[n] == Frame(FadedTimes(old(buffer[..]), FAST_FADE_VAL, n + 1))
    ensures frames[15] == Frame(seq(BUFFER_LEN, _ => 0))
  {
    frames := [];
    var loops := 0;
    while loops < 16
      invariant 0 <= loops <= 16
      invariant buffer[..] == FadedTimes(old(buffer[..]), FAST_FADE_VAL, loops)
      invariant |frames| == loops
      invariant forall n :: 0 <= n < loops ==> frames[n] == Frame(FadedTimes(old(buffer[..]), FAST_FADE_VAL, n + 1))
    {
      FadeBuffer(buffer, FAST_FADE_VAL);
      var frame := DisplayBuffer(buffer);
      frames := frames + [frame];
      loops := loops + 1;
    }
    SixteenFadesDarken(old(buffer[..]));
    assert buffer[..] == seq(BUFFER_LEN, _ => 0);
  }

  // ---------------------------------------------------------------- layouts painted with Fill

  /** The arguments of one Fill call. */
  datatype Segment = Segment(startLed: int, endLed: int, c1: Rgb, c2: Rgb)

  predicate Fits(g: Segment)
  {
    FillFits(g.startLed, g.endLed)
  }

  /** Every Fill call of a layout has arguments Fill accepts. */
  predicate AllFit(segs: seq<Segment>)
  {
    forall i :: 0 <= i < |segs| ==> Fits(segs[i])
  }

  predicate Covers(g: Segment, p: int)
  {
    g.startLed <= p <= g.endLed
  }

  /** The colour a segment gives a pixel it covers. */
  function SegmentColour(g: Segment, p: int): Rgb
    requires Covers(g, p)
  {
    GradientAt(g.c1, g.c2, g.endLed - g.startLed, p - g.startLed)
  }

  /** The buffer after one Fill per segment, in order. */
  function Painted(s: seq<Byte>, segs: seq<Segment>): (r: seq<Byte>)
    requires |s| == BUFFER_LEN && AllFit(segs)
    ensures |r| == BUFFER_LEN
    decreases |segs|
  {
    if segs == [] then s
    else
      var g := segs[|segs| - 1];
      assert Fits(segs[|segs| - 1]) && AllFit(segs[..|segs| - 1]);
      assert FillFits(g.startLed, g.endLed);
      Filled(Painted(s, segs[..|segs| - 1]), g.startLed, g.endLed, g.c1, g.c2)
  }

  /** The index of the last segment that covers pixel p, or -1 when none does. */
  function LastCover(segs: seq<Segment>, p: int): (j: int)
    ensures -1 <= j < |segs|
    ensures j >= 0 ==> Covers(segs[j], p)
    ensures forall k :: j < k < |segs| ==> !Covers(segs[k], p)
    decreases |segs|
  {
    if segs == [] then -1
    else if Covers(segs[|segs| - 1], p) then |segs| - 1
    else LastCover(segs[..|segs| - 1], p)
  }

  /** The last write wins: a pixel shows the colour of the last segment covering it, and keeps
      its old colour when no segment covers it. */
  lemma {:induction false} PaintedPixel(s: seq<Byte>, segs: seq<Segment>, p: int)
    requires |s| == BUFFER_LEN && AllFit(segs)
    requires 0 <= p < NUM_LEDS
    ensures var j := LastCover(segs, p);
      PixelAt(Painted(s, segs), p) == if j < 0 then PixelAt(s, p) else SegmentColour(segs[j], p)
    decreases |segs|
  {
    if segs != [] {
      var n := |segs| - 1;
      assert AllFit(segs[..n]);
      PaintedPixel(s, segs[..n], p);
      PaintedLast(s, segs, p);
    }
  }

  /** The last Fill of a layout decides the pixels it covers and leaves the others alone. */
  lemma PaintedLast(s: seq<Byte>, segs: seq<Segment>, p: int)
    requires |s| == BUFFER_LEN && AllFit(segs)
    requires 0 <= p < NUM_LEDS && segs != []
    ensures var g, init := segs[|segs| - 1], segs[..|segs| - 1];
      PixelAt(Painted(s, segs), p) == if Covers(g, p) then SegmentColour(g, p) else PixelAt(Painted(s, init), p)
  {
    var g, init := segs[|segs| - 1], segs[..|segs| - 1];
    assert Fits(g) && AllFit(init);
    FilledPixel(Painted(s, init), g.startLed, g.endLed, g.c1, g.c2, p);
  }

  /** Fill called with a segment's arguments. */
  method FillWith(buffer: array<Byte>, g: Segment)
    requires buffer.Length == BUFFER_LEN && Fits(g)
    modifies buffer
    ensures buffer[..] == Filled(old(buffer[..]), g.startLed, g.endLed, g.c1, g.c2)
  {
    Fill(buffer, g.startLed, g.endLed, g.c1, g.c2);
  }

  /** Fill called with the arguments of segment k, on the layout painted by the segments
      before it, extends that layout by segment k. */
  lemma PaintedNext(s: seq<Byte>, segs: seq<Segment>, k: nat, before: seq<Byte>, after: seq<Byte>)
    requires |s| == BUFFER_LEN && k < |segs| && AllFit(segs)
    requires before == Painted(s, segs[..k])
    requires after == Filled(before, segs[k].startLed, segs[k].endLed, segs[k].c1, segs[k].c2)
    ensures after == Painted(s, segs[..k + 1])
  {
    assert segs[..k + 1][..k] == segs[..k];
  }

  /** A pixel shows the colour of segment k when k covers it and no later segment does. */
  lemma PaintedPixelFrom(s: seq<Byte>, segs: seq<Segment>, p: int, k: int)
    requires |s| == BUFFER_LEN && AllFit(segs)
    requires 0 <= p < NUM_LEDS && 0 <= k < |segs| && Covers(segs[k], p)
    requires forall i :: k < i < |segs| ==> !Covers(segs[i], p)
    ensures PixelAt(Painted(s, segs), p) == SegmentColour(segs[k], p)
  {
    PaintedPixel(s, segs, p);
  }

  /** When every pixel is covered, the painted layout does not depend on what the buffer held. */
  lemma PaintedCoveringAll(s: seq<Byte>, t: seq<Byte>, segs: seq<Segment>)
    requires |s| == |t| == BUFFER_LEN && AllFit(segs)
    requires forall p :: 0 <= p < NUM_LEDS ==> LastCover(segs, p) >= 0
    ensures Painted(s, segs) == Painted(t, segs)
  {
    forall p | 0 <= p < NUM_LEDS
      ensures PixelAt(Painted(s, segs), p) == PixelAt(Painted(t, segs), p)
    {
      PaintedPixel(s, segs, p);
      PaintedPixel(t, segs, p);
    }
    PixelsDetermineBuffer(Painted(s, segs), Painted(t, segs));
  }

  // ---------------------------------------------------------------- Rainbow

  /** The segment length: NUM_LEDS / 6 is an integer division, so 107, before it is stored as a
      float. */
  const INC: int := NUM_LEDS / 6

  const RED: Rgb := Rgb(255, 0, 0)
  const YELLOW: Rgb := Rgb(255, 255, 0)
  const GREEN: Rgb := Rgb(0, 255, 0)
  const CYAN: Rgb := Rgb(0, 255, 255)
  const BLUE: Rgb := Rgb(0, 0, 255)
  const MAGENTA: Rgb := Rgb(255, 0, 255)

  /** The six Fill calls of Rainbow's setup. */
  const RAINBOW: seq<Segment> := [
    Segment(0, INC, RED, YELLOW),
    Segment(INC, INC * 2, YELLOW, GREEN),
    Segment(INC * 2, INC * 3, GREEN, CYAN),
    Segment(INC * 3, INC * 4, CYAN, BLUE),
    Segment(INC * 4, INC * 5, BLUE, MAGENTA),
    Segment(INC * 5, NUM_LEDS - 1, MAGENTA, RED)
  ]

  lemma RainbowFits()
    ensures AllFit(RAINBOW)
  {
  }

  /** Rainbow's setup: pick the scroll direction from one draw of rand(), paint the six
      gradients and display the result. */
  method RainbowSetup(buffer: array<Byte>, draw: nat) returns (direction: Byte, frame: seq<Byte>)
    requires buffer.Length == BUFFER_LEN
    modifies buffer
    ensures direction == draw % 2
    ensures buffer[..] == Painted(old(buffer[..]), RAINBOW)
    ensures frame == Frame(buffer[..])
  {
    direction := draw % 2;
    RainbowFits();
    ghost var s0 := buffer[..];
    FillWith(buffer, RAINBOW[0]);
    ghost var s1 := buffer[..];
    FillWith(buffer, RAINBOW[1]);
    ghost var s2 := buffer[..];
    FillWith(buffer, RAINBOW[2]);
    ghost var s3 := buffer[..];
    FillWith(buffer, RAINBOW[3]);
    ghost var s4 := buffer[..];
    FillWith(buffer, RAINBOW[4]);
    ghost var s5 := buffer[..];
    FillWith(buffer, RAINBOW[5]);
    RainbowPainted(s0, s1, s2, s3, s4, s5, buffer[..]);
    frame := DisplayBuffer(buffer);
  }

  /** The six Fill calls, one after the other, paint RAINBOW. */
  lemma RainbowPainted(s0: seq<Byte>, s1: seq<Byte>, s2: seq<Byte>, s3: seq<Byte>, s4: seq<Byte>,
                       s5: seq<Byte>, s6: seq<Byte>)
    requires |s0| == BUFFER_LEN && AllFit(RAINBOW)
    requires s1 == Filled(s0, RAINBOW[0].startLed, RAINBOW[0].endLed, RAINBOW[0].c1, RAINBOW[0].c2)
    requires s2 == Filled(s1, RAINBOW[1].startLed, RAINBOW[1].endLed, RAINBOW[1].c1, RAINBOW[1].c2)
    requires s3 == Filled(s2, RAINBOW[2].startLed, RAINBOW[2].endLed, RAINBOW[2].c1, RAINBOW[2].c2)
    requires s4 == Filled(s3, RAINBOW[3].startLed, RAINBOW[3].endLed, RAINBOW[3].c1, RAINBOW[3].c2)
    requires s5 == Filled(s4, RAINBOW[4].startLed, RAINBOW[4].endLed, RAINBOW[4].c1, RAINBOW[4].c2)
    requires s6 == Filled(s5, RAINBOW[5].startLed, RAINBOW[5].endLed, RAINBOW[5].c1, RAINBOW[5].c2)
    ensures s6 == Painted(s0, RAINBOW)
  {
    assert RAINBOW[..0] == [];
    PaintedNext(s0, RAINBOW, 0, s0, s1);
    PaintedNext(s0, RAINBOW, 1, s1, s2);
    PaintedNext(s0, RAINBOW, 2, s2, s3);
    PaintedNext(s0, RAINBOW, 3, s3, s4);
    PaintedNext(s0, RAINBOW, 4, s4, s5);
    PaintedNext(s0, RAINBOW, 5, s5, s6);
    assert RAINBOW[..6] == RAINBOW;
  }

  /** Rainbow's setup writes every pixel 0..645, so the layout is the same whatever the buffer
      held before. */
  lemma RainbowCoversStrip(s: seq<Byte>, t: seq<Byte>)
    requires |s| == |t| == BUFFER_LEN
    ensures Painted(s, RAINBOW) == Painted(t, RAINBOW)
  {
    RainbowFits();
    forall p | 0 <= p < NUM_LEDS
      ensures LastCover(RAINBOW, p) >= 0
    {
      var k := if p <= INC then 0 else if p <= 2 * INC then 1 else if p <= 3 * INC then 2
               else if p <= 4 * INC then 3 else if p <= 5 * INC then 4 else 5;
      assert Covers(RAINBOW[k], p);
    }
    PaintedCoveringAll(s, t, RAINBOW);
  }

  /** The colours Rainbow's setup leaves at the segment starts: red at pixel 0, then yellow,
      green, cyan, blue and magenta at 107, 214, 321, 428 and 535; the last pixel, where the final
      gradient ends, is red again. */
  lemma RainbowColours(s: seq<Byte>)
    requires |s| == BUFFER_LEN
    ensures var r := Painted(s, RAINBOW);
      && PixelAt(r, 0) == RED && PixelAt(r, 107) == YELLOW && PixelAt(r, 214) == GREEN
      && PixelAt(r, 321) == CYAN && PixelAt(r, 428) == BLUE && PixelAt(r, 535) == MAGENTA
      && PixelAt(r, 645) == RED
  {
    assert INC == 107;
    RainbowSegmentStart(s, 0);
    RainbowSegmentStart(s, 1);
    RainbowSegmentStart(s, 2);
    RainbowSegmentStart(s, 3);
    RainbowSegmentStart(s, 4);
    RainbowSegmentStart(s, 5);
    RainbowStripEnd(s);
  }

  /** The first pixel of every rainbow segment shows that segment's first colour: the next
      segment starts further on, so nothing paints over it. */
  lemma RainbowSegmentStart(s: seq<Byte>, k: nat)
    requires |s| == BUFFER_LEN && k < 6
    ensures PixelAt(Painted(s, RAINBOW), RAINBOW[k].startLed) == RAINBOW[k].c1
  {
    RainbowFits();
    var p := RAINBOW[k].startLed;
    assert Covers(RAINBOW[k], p);
    forall i | k < i < 6 ensures !Covers(RAINBOW[i], p) {
      assert RAINBOW[i].startLed > p;
    }
    PaintedPixelFrom(s, RAINBOW, p, k);
  }

  /** The last pixel of the strip closes the gradient back on red. */
  lemma RainbowStripEnd(s: seq<Byte>)
    requires |s| == BUFFER_LEN
    ensures PixelAt(Painted(s, RAINBOW), NUM_LEDS - 1) == RED
  {
    RainbowFits();
    PaintedPixelFrom(s, RAINBOW, NUM_LEDS - 1, 5);
  }

  // ---------------------------------------------------------------- RandomTwoColorFade

  /** The two Fill calls of RandomTwoColorFade's setup: c1 to c2 over the first half, c2 back to
      c1 over the second. */
  function TwoColorSegments(c1: Rgb, c2: Rgb): (segs: seq<Segment>)
    ensures AllFit(segs)
  {
    [Segment(0, 321, c1, c2), Segment(322, NUM_LEDS - 1, c2, c1)]
  }

  /** RandomColor(seed): rand() % 255 when a first draw of rand() falls below the seed, else 0. */
  function RandomColor(seed: Byte, first: nat, second: nat): (v: Byte)
    ensures v < 255
    ensures first % 255 >= seed ==> v == 0
  {
    if first % 255 < seed then second % 255 else 0
  }

  /** RandomTwoColorFade's setup: paint the two gradients and display the result. The six
      RandomColor(128) results arrive as the two colours; the direction from one draw. */
  method RandomTwoColorFadeSetup(buffer: array<Byte>, c1: Rgb, c2: Rgb, draw: nat)
    returns (direction: Byte, frame: seq<Byte>)
    requires buffer.Length == BUFFER_LEN
    modifies buffer
    ensures direction == draw % 2
    ensures buffer[..] == Painted(old(buffer[..]), TwoColorSegments(c1, c2))
    ensures frame == Frame(buffer[..])
  {
    direction := draw % 2;
    ghost var s0 := buffer[..];
    Fill(buffer, 0, 321, c1, c2);
    ghost var s1 := buffer[..];
    Fill(buffer, 322, NUM_LEDS - 1, c2, c1);
    TwoColorPainted(s0, s1, buffer[..], c1, c2);
    frame := DisplayBuffer(buffer);
  }

  /** The two Fill calls, one after the other, paint TwoColorSegments(c1, c2). */
  lemma TwoColorPainted(s0: seq<Byte>, s1: seq<Byte>, s2: seq<Byte>, c1: Rgb, c2: Rgb)
    requires |s0| == BUFFER_LEN
    requires s1 == Filled(s0, 0, 321, c1, c2)
    requires s2 == Filled(s1, 322, NUM_LEDS - 1, c2, c1)
    ensures s2 == Painted(s0, TwoColorSegments(c1, c2))
  {
    var segs := TwoColorSegments(c1, c2);
    assert segs[..0] == [];
    PaintedNext(s0, segs, 0, s0, s1);
    PaintedNext(s0, segs, 1, s1, s2);
    assert segs[..2] == segs;
  }

  /** RandomTwoColorFade's setup writes every pixel: c1 at pixel 0 and c2 at pixel 322 exactly,
      and (in exact arithmetic) c2 at pixel 321 and c1 at the last pixel. */
  lemma TwoColorLayout(s: seq<Byte>, t: seq<Byte>, c1: Rgb, c2: Rgb)
    requires |s| == |t| == BUFFER_LEN
    ensures var r := Painted(s, TwoColorSegments(c1, c2));
      && r == Painted(t, TwoColorSegments(c1, c2))
      && PixelAt(r, 0) == c1 && PixelAt(r, 321) == c2
      && PixelAt(r, 322) == c2 && PixelAt(r, 645) == c1
  {
    var segs := TwoColorSegments(c1, c2);
    forall p | 0 <= p < NUM_LEDS
      ensures LastCover(segs, p) >= 0
    {
      assert Covers(segs[if p <= 321 then 0 else 1], p);
    }
    PaintedCoveringAll(s, t, segs);
    PaintedPixel(s, segs, 0);
    PaintedPixel(s, segs, 321);
    PaintedPixel(s, segs, 322);
    PaintedPixel(s, segs, 645);
  }

  // ---------------------------------------------------------------- one scrolling tick

  /** One tick of Rainbow's and RandomTwoColorFade's loop: display the buffer, then rotate it. */
  method ScrollTick(buffer: array<Byte>, direction: Byte) returns (frame: seq<Byte>)
    requires buffer.Length == BUFFER_LEN
    modifies buffer
    ensures frame == Frame(old(buffer[..]))
    ensures buffer[..] == if direction != 0 then RotatedLeft(old(buffer[..])) else RotatedRight(old(buffer[..]))
  {
    frame := DisplayBuffer(buffer);
    Rotate(buffer, direction);
  }

  // ---------------------------------------------------------------- start-up clearing

  /** The index main's initialisation loop writes for byte c of pixel i, as written
      (`buffer[i*4 + c]`). */
  function InitLoopIndex(i: int, c: int): int
  {
    i * 4 + c
  }

  /** As written, the initialisation loop writes past the end of the 1938-byte buffer: already
      at pixel 484 it writes index 1938, and its last write is index 2582. */
  lemma InitLoopOverruns()
    ensures InitLoopIndex(484, 2) == BUFFER_LEN
    ensures InitLoopIndex(NUM_LEDS - 1, 2) == 2582
    ensures forall i, c :: 0 <= i < 484 && 0 <= c < 3 ==> InitLoopIndex(i, c) < BUFFER_LEN
  {
  }

  /** The initialisation as intended: every pixel's three bytes set to 0, indexing by i * 3. */
  method ClearBuffer(buffer: array<Byte>)
    requires buffer.Length == BUFFER_LEN
    modifies buffer
    ensures forall k :: 0 <= k < BUFFER_LEN ==> buffer[k] == 0
  {
    var i := 0;
    while i < NUM_LEDS
      invariant 0 <= i <= NUM_LEDS
      invariant forall k :: 0 <= k < 3 * i ==> buffer[k] == 0
    {
      buffer[i * 3] := 0;
      buffer[i * 3 + 1] := 0;
      buffer[i * 3 + 2] := 0;
      i := i + 1;
    }
  }
}
