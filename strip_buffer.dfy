/** The strip's pixel buffer and the in-place operations on it: fadeBuffer, Rotate and Fill.
    The buffer holds NUM_LEDS pixels of three bytes each, stored blue, green, red. */
module StripBuffer {

  const NUM_LEDS: nat := 646
  const BUFFER_LEN: nat := NUM_LEDS * 3

  /** An unsigned 8-bit value (`uint8_t`). */
  type Byte = x: int | 0 <= x < 256

  datatype Rgb = Rgb(r: Byte, g: Byte, b: Byte)

  /** The byte at offset k of a stored pixel: blue first, then green, then red. */
  function Channel(c: Rgb, k: int): Byte
    requires 0 <= k < 3
  {
    if k == 0 then c.b else if k == 1 then c.g else c.r
  }

  /** The colour of pixel i of a buffer. */
  function PixelAt(s: seq<Byte>, i: int): Rgb
    requires 0 <= i && 3 * i + 2 < |s|
  {
    Rgb(s[3 * i + 2], s[3 * i + 1], s[3 * i])
  }

  /** Two buffers that show the same colour at every pixel are the same buffer. */
  lemma {:induction false} PixelsDetermineBuffer(s: seq<Byte>, t: seq<Byte>)
    requires |s| == |t| == BUFFER_LEN
    requires forall p :: 0 <= p < NUM_LEDS ==> PixelAt(s, p) == PixelAt(t, p)
    ensures s == t
  {
    forall k | 0 <= k < BUFFER_LEN
      ensures s[k] == t[k]
    {
      var p := k / 3;
      assert PixelAt(s, p) == PixelAt(t, p);
      assert k == 3 * p || k == 3 * p + 1 || k == 3 * p + 2;
    }
  }

  // ---------------------------------------------------------------- fadeBuffer

  function FadeByte(x: Byte, fadeVal: Byte): Byte
  {
    if x > fadeVal then x - fadeVal else 0
  }

  /** The buffer after one fadeBuffer(fadeVal): a saturating subtract on every byte. */
  function Faded(s: seq<Byte>, fadeVal: Byte): (r: seq<Byte>)
    ensures |r| == |s|
    ensures forall i :: 0 <= i < |s| ==> r[i] <= s[i]
    ensures forall i :: 0 <= i < |s| ==> (s[i] <= fadeVal <==> r[i] == 0)
    ensures forall i :: 0 <= i < |s| && s[i] > fadeVal ==> s[i] - r[i] == fadeVal
  {
    seq(|s|, i requires 0 <= i < |s| => FadeByte(s[i], fadeVal))
  }

  method FadeBuffer(buffer: array<Byte>, fadeVal: Byte)
    requires buffer.Length == BUFFER_LEN
    modifies buffer
    ensures buffer[..] == Faded(old(buffer[..]), fadeVal)
  {
    var i := 0;
    while i < BUFFER_LEN
      invariant 0 <= i <= BUFFER_LEN
      invariant forall k :: 0 <= k < i ==> buffer[k] == FadeByte(old(buffer[k]), fadeVal)
      invariant forall k :: i <= k < BUFFER_LEN ==> buffer[k] == old(buffer[k])
    {
      if buffer[i] > fadeVal {
        buffer[i] := buffer[i] - fadeVal;
      } else if buffer[i] > 0 {
        buffer[i] := 0;
      }
      i := i + 1;
    }
  }

  /** The buffer after n calls of fadeBuffer(fadeVal). */
  function FadedTimes(s: seq<Byte>, fadeVal: Byte, n: nat): (r: seq<Byte>)
    ensures |r| == |s|
  {
    if n == 0 then s else Faded(FadedTimes(s, fadeVal, n - 1), fadeVal)
  }

  /** After n fades by 16 no byte exceeds 255 - 16n (or 0 once that is negative). */
  lemma {:induction false} FadedTimesBound(s: seq<Byte>, n: nat)
    ensures |FadedTimes(s, 16, n)| == |s|
    ensures forall i :: 0 <= i < |s| ==> FadedTimes(s, 16, n)[i] <= if 16 * n <= 255 then 255 - 16 * n else 0
  {
    if n > 0 {
      FadedTimesBound(s, n - 1);
    }
  }

  /** Sixteen fades by 16 turn every byte off, whatever the starting contents (16 * 16 > 255). */
  lemma SixteenFadesDarken(s: seq<Byte>)
    ensures FadedTimes(s, 16, 16) == seq(|s|, _ => 0)
  {
    FadedTimesBound(s, 16);
  }

  // ---------------------------------------------------------------- Rotate

  /** Rotate with a non-zero direction: pixel i + 1 moves to pixel i, pixel 0 to the last pixel. */
  function RotatedLeft(s: seq<Byte>): seq<Byte>
    requires |s| >= 3
  {
    s[3..] + s[..3]
  }

  /** Rotate with direction 0: pixel i - 1 moves to pixel i, the last pixel to pixel 0. */
  function RotatedRight(s: seq<Byte>): seq<Byte>
    requires |s| >= 3
  {
    s[|s| - 3..] + s[..|s| - 3]
  }

  method Rotate(buffer: array<Byte>, direction: Byte)
    requires buffer.Length == BUFFER_LEN
    modifies buffer
    ensures buffer[..] == if direction != 0 then RotatedLeft(old(buffer[..])) else RotatedRight(old(buffer[..]))
  {
    if direction != 0 {
      RotateLeftByOne(buffer);
    } else {
      RotateRightByOne(buffer);
    }
  }

  /** Rotate's non-zero branch: save pixel 0, shift every pixel down by one, put pixel 0 last. */
  method RotateLeftByOne(buffer: array<Byte>)
    requires buffer.Length == BUFFER_LEN
    modifies buffer
    ensures buffer[..] == RotatedLeft(old(buffer[..]))
  {
    ghost var s := buffer[..];
    var b, g, r := buffer[0], buffer[1], buffer[2];
    var i := 0;
    while i < NUM_LEDS - 1
      invariant 0 <= i <= NUM_LEDS - 1
      invariant forall k {:trigger buffer[k]} :: 0 <= k < 3 * i ==> buffer[k] == s[k + 3]
      invariant forall k {:trigger buffer[k]} :: 3 * i <= k < BUFFER_LEN ==> buffer[k] == s[k]
    {
      buffer[i * 3] := buffer[(i + 1) * 3];
      buffer[i * 3 + 1] := buffer[(i + 1) * 3 + 1];
      buffer[i * 3 + 2] := buffer[(i + 1) * 3 + 2];
      i := i + 1;
    }
    buffer[(NUM_LEDS - 1) * 3] := b;
    buffer[(NUM_LEDS - 1) * 3 + 1] := g;
    buffer[(NUM_LEDS - 1) * 3 + 2] := r;
    ShiftedDownIsRotatedLeft(s, buffer);
  }

  /** Rotate's zero branch: save the last pixel, shift every pixel up by one, put it first. */
  method RotateRightByOne(buffer: array<Byte>)
    requires buffer.Length == BUFFER_LEN
    modifies buffer
    ensures buffer[..] == RotatedRight(old(buffer[..]))
  {
    ghost var s := buffer[..];
    var b, g, r := buffer[(NUM_LEDS - 1) * 3], buffer[(NUM_LEDS - 1) * 3 + 1], buffer[(NUM_LEDS - 1) * 3 + 2];
    var i := NUM_LEDS - 1;
    while i > 0
      invariant 0 <= i <= NUM_LEDS - 1
      invariant forall k {:trigger buffer[k]} :: 3 * i + 3 <= k < BUFFER_LEN ==> buffer[k] == s[k - 3]
      invariant forall k {:trigger buffer[k]} :: 0 <= k < 3 * i + 3 ==> buffer[k] == s[k]
    {
      buffer[i * 3] := buffer[(i - 1) * 3];
      buffer[i * 3 + 1] := buffer[(i - 1) * 3 + 1];
      buffer[i * 3 + 2] := buffer[(i - 1) * 3 + 2];
      i := i - 1;
    }
    buffer[0] := b;
    buffer[1] := g;
    buffer[2] := r;
    ShiftedUpIsRotatedRight(s, buffer);
  }

  /** Every pixel moved down by one, with the saved first pixel written last: a left rotation. */
  lemma ShiftedDownIsRotatedLeft(s: seq<Byte>, a: array<Byte>)
    requires |s| == a.Length == BUFFER_LEN
    requires forall k {:trigger a[k]} :: 0 <= k < BUFFER_LEN - 3 ==> a[k] == s[k + 3]
    requires a[BUFFER_LEN - 3] == s[0] && a[BUFFER_LEN - 2] == s[1] && a[BUFFER_LEN - 1] == s[2]
    ensures a[..] == RotatedLeft(s)
  {
    forall k | 0 <= k < BUFFER_LEN
      ensures a[k] == RotatedLeft(s)[k]
    {
      RotatedLeftAt(s, k);
    }
  }

  /** Every pixel moved up by one, with the saved last pixel written first: a right rotation. */
  lemma ShiftedUpIsRotatedRight(s: seq<Byte>, a: array<Byte>)
    requires |s| == a.Length == BUFFER_LEN
    requires forall k {:trigger a[k]} :: 3 <= k < BUFFER_LEN ==> a[k] == s[k - 3]
    requires a[0] == s[BUFFER_LEN - 3] && a[1] == s[BUFFER_LEN - 2] && a[2] == s[BUFFER_LEN - 1]
    ensures a[..] == RotatedRight(s)
  {
    forall k | 0 <= k < BUFFER_LEN
      ensures a[k] == RotatedRight(s)[k]
    {
      RotatedRightAt(s, k);
    }
  }

  /** Byte k of a left rotation. */
  lemma RotatedLeftAt(s: seq<Byte>, k: int)
    requires 3 <= |s| && 0 <= k < |s|
    ensures RotatedLeft(s)[k] == if k < |s| - 3 then s[k + 3] else s[k - (|s| - 3)]
  {
  }

  /** Byte k of a right rotation. */
  lemma RotatedRightAt(s: seq<Byte>, k: int)
    requires 3 <= |s| && 0 <= k < |s|
    ensures RotatedRight(s)[k] == if k < 3 then s[|s| - 3 + k] else s[k - 3]
  {
  }

  /** Each B,G,R triple moves as a unit: a left rotation shows pixel i + 1 at pixel i (and pixel 0
      at the last pixel); a right rotation shows pixel i - 1 at pixel i (and the last pixel at 0). */
  lemma RotatedPixels(s: seq<Byte>, i: int)
    requires |s| % 3 == 0 && |s| >= 3 && 0 <= i < |s| / 3
    ensures PixelAt(RotatedLeft(s), i) == PixelAt(s, if i + 1 < |s| / 3 then i + 1 else 0)
    ensures PixelAt(RotatedRight(s), i) == PixelAt(s, if i > 0 then i - 1 else |s| / 3 - 1)
  {
    var n := |s| / 3;
    assert |s| == 3 * n;
    RotatedLeftAt(s, 3 * i);
    RotatedLeftAt(s, 3 * i + 1);
    RotatedLeftAt(s, 3 * i + 2);
    RotatedRightAt(s, 3 * i);
    RotatedRightAt(s, 3 * i + 1);
    RotatedRightAt(s, 3 * i + 2);
  }

  /** Rotate(1) followed by Rotate(0) restores the buffer, and so does the opposite order. */
  lemma RotateRoundTrip(s: seq<Byte>)
    requires |s| >= 3
    ensures RotatedRight(RotatedLeft(s)) == s
    ensures RotatedLeft(RotatedRight(s)) == s
  {
    assert RotatedLeft(s)[|s| - 3..] == s[..3];
    assert RotatedLeft(s)[..|s| - 3] == s[3..];
    assert RotatedRight(s)[3..] == s[..|s| - 3];
    assert RotatedRight(s)[..3] == s[|s| - 3..];
  }

  function RotatedLeftTimes(s: seq<Byte>, n: nat): seq<Byte>
    requires |s| >= 3
    ensures |RotatedLeftTimes(s, n)| == |s|
  {
    if n == 0 then s else RotatedLeft(RotatedLeftTimes(s, n - 1))
  }

  function RotatedRightTimes(s: seq<Byte>, n: nat): seq<Byte>
    requires |s| >= 3
    ensures |RotatedRightTimes(s, n)| == |s|
  {
    if n == 0 then s else RotatedRight(RotatedRightTimes(s, n - 1))
  }

  /** n left rotations move the first n pixels, in order, behind the rest. */
  lemma {:induction false} RotatedLeftTimesSplit(s: seq<Byte>, n: nat)
    requires |s| >= 3 && 3 * n <= |s|
    ensures RotatedLeftTimes(s, n) == s[3 * n..] + s[..3 * n]
  {
    if n > 0 {
      RotatedLeftTimesSplit(s, n - 1);
      var t := s[3 * (n - 1)..] + s[..3 * (n - 1)];
      assert t[3..] == s[3 * n..] + s[..3 * (n - 1)];
      assert t[..3] == s[3 * (n - 1)..3 * n];
      assert s[..3 * (n - 1)] + s[3 * (n - 1)..3 * n] == s[..3 * n];
    }
  }

  /** n right rotations move the last n pixels, in order, in front of the rest. */
  lemma {:induction false} RotatedRightTimesSplit(s: seq<Byte>, n: nat)
    requires |s| >= 3 && 3 * n <= |s|
    ensures RotatedRightTimes(s, n) == s[|s| - 3 * n..] + s[..|s| - 3 * n]
  {
    if n > 0 {
      RotatedRightTimesSplit(s, n - 1);
      var m := |s| - 3 * (n - 1);
      var t := s[m..] + s[..m];
      assert t[|t| - 3..] == s[m - 3..m];
      assert t[..|t| - 3] == s[m..] + s[..m - 3];
      assert s[m - 3..m] + s[m..] == s[m - 3..];
    }
  }

  /** As many rotations as there are pixels, in either direction, give back the original buffer. */
  lemma FullTurnIsIdentity(s: seq<Byte>)
    requires |s| >= 3 && |s| % 3 == 0
    ensures RotatedLeftTimes(s, |s| / 3) == s
    ensures RotatedRightTimes(s, |s| / 3) == s
  {
    RotatedLeftTimesSplit(s, |s| / 3);
    RotatedRightTimesSplit(s, |s| / 3);
  }

  // ---------------------------------------------------------------- Fill

  /** Multiplying by a positive number keeps an order. */
  lemma MulMonotone(n: int, a: int, b: int)
    requires n > 0 && a <= b
    ensures n * a <= n * b
  {
    var d := b - a;
    assert n * d >= 0;
    assert n * b == n * a + n * d;
  }

  /** Dividing out a positive factor keeps a strict order. */
  lemma MulCancel(n: int, a: int, b: int)
    requires n > 0
    ensures n * a < n * b ==> a < b
  {
    if a >= b {
      MulMonotone(n, b, a);
    }
  }

  /** Division bounds used to keep an interpolated channel between its end points. */
  lemma DivBetween(x: int, n: int, lo: int, hi: int)
    requires n > 0 && n * lo <= x <= n * hi
    ensures lo <= x / n <= hi
  {
    var q := x / n;
    assert n * q <= x < n * q + n;
    assert n * (q + 1) == n * q + n;
    assert n * (hi + 1) == n * hi + n;
    MulCancel(n, lo, q + 1);
    MulCancel(n, q, hi + 1);
  }

  /** Channel j of `steps` of a linear gradient from a to b, in exact arithmetic and truncated. */
  function Lerp(a: Byte, b: Byte, j: int, steps: int): (v: Byte)
    requires 0 < steps && 0 <= j <= steps
    ensures j == 0 ==> v == a
    ensures j == steps ==> v == b
    ensures a <= v <= b || b <= v <= a
  {
    var d := b - a;
    LerpOffsetBounds(d, j, steps);
    a + d * j / steps
  }

  /** The offset d * j / steps lies between 0 and d, and is 0 at j = 0 and d at j = steps. */
  lemma LerpOffsetBounds(d: int, j: int, steps: int)
    requires 0 < steps && 0 <= j <= steps
    ensures 0 <= d ==> 0 <= d * j / steps <= d
    ensures d < 0 ==> d <= d * j / steps <= 0
    ensures j == 0 ==> d * j / steps == 0
    ensures j == steps ==> d * j / steps == d
  {
    if 0 <= d {
      OffsetRising(d, j, steps);
    } else {
      OffsetFalling(d, j, steps);
    }
    if j == steps {
      assert steps * d == d * j;
      DivBetween(d * j, steps, d, d);
    }
  }

  lemma OffsetRising(d: int, j: int, steps: int)
    requires 0 < steps && 0 <= j <= steps && 0 <= d
    ensures 0 <= d * j / steps <= d
  {
    MulMonotone(d + 1, j, steps);
    assert (d + 1) * j == d * j + j && (d + 1) * steps == d * steps + steps;
    assert 0 <= d * j <= d * steps;
    assert steps * d == d * steps;
    DivBetween(d * j, steps, 0, d);
  }

  lemma OffsetFalling(d: int, j: int, steps: int)
    requires 0 < steps && 0 <= j <= steps && d < 0
    ensures d <= d * j / steps <= 0
  {
    MulMonotone(-d, j, steps);
    assert (-d) * j == -(d * j) && (-d) * steps == -(d * steps);
    assert steps * d == d * steps;
    DivBetween(d * j, steps, d, 0);
  }

  /** The colour pixel `start + j` receives from a gradient over `steps + 1` pixels. With no steps
      (a one-pixel fill) it is the first colour. */
  function GradientAt(c1: Rgb, c2: Rgb, steps: int, j: int): Rgb
    requires 0 <= j <= steps
  {
    if steps == 0 then c1
    else Rgb(Lerp(c1.r, c2.r, j, steps), Lerp(c1.g, c2.g, j, steps), Lerp(c1.b, c2.b, j, steps))
  }

  /** What Fill(startLed, endLed, c1, c2) may be called with: when the range is not empty it
      lies on the strip. */
  predicate FillFits(startLed: int, endLed: int)
  {
    startLed <= endLed ==> 0 <= startLed && endLed < NUM_LEDS
  }

  /** The buffer after Fill(startLed, endLed, c1, c2). */
  function Filled(s: seq<Byte>, startLed: int, endLed: int, c1: Rgb, c2: Rgb): (r: seq<Byte>)
    requires |s| == BUFFER_LEN && FillFits(startLed, endLed)
    ensures |r| == BUFFER_LEN
    ensures endLed < startLed ==> r == s
  {
    var steps := endLed - startLed;
    if steps != 0 then
      seq(|s|, k requires 0 <= k < |s| =>
        if 3 * startLed <= k < 3 * (endLed + 1) then Channel(GradientAt(c1, c2, steps, k / 3 - startLed), k % 3)
        else s[k])
    else
      s[3 * startLed := c1.b][3 * startLed + 1 := c1.g][3 * startLed + 2 := c1.r]
  }

  /** Fill changes no pixel outside startLed..endLed, gives each pixel inside its gradient
      colour, and gives pixel startLed exactly c1. */
  lemma FilledPixel(s: seq<Byte>, startLed: int, endLed: int, c1: Rgb, c2: Rgb, p: int)
    requires |s| == BUFFER_LEN && FillFits(startLed, endLed) && 0 <= p < NUM_LEDS
    ensures PixelAt(Filled(s, startLed, endLed, c1, c2), p) ==
      if startLed <= p <= endLed then GradientAt(c1, c2, endLed - startLed, p - startLed) else PixelAt(s, p)
    ensures p == startLed <= endLed ==> PixelAt(Filled(s, startLed, endLed, c1, c2), p) == c1
  {
    var steps := endLed - startLed;
    if steps != 0 {
      assert (3 * p) / 3 == p && (3 * p + 1) / 3 == p && (3 * p + 2) / 3 == p;
      assert (3 * p) % 3 == 0 && (3 * p + 1) % 3 == 1 && (3 * p + 2) % 3 == 2;
      FilledByte(s, startLed, endLed, c1, c2, 3 * p);
      FilledByte(s, startLed, endLed, c1, c2, 3 * p + 1);
      FilledByte(s, startLed, endLed, c1, c2, 3 * p + 2);
    }
  }

  /** Byte k after a Fill over more than one pixel (or none): a gradient channel inside the range,
      the old byte outside it. */
  lemma FilledByte(s: seq<Byte>, startLed: int, endLed: int, c1: Rgb, c2: Rgb, k: int)
    requires |s| == BUFFER_LEN && FillFits(startLed, endLed) && endLed != startLed && 0 <= k < BUFFER_LEN
    ensures Filled(s, startLed, endLed, c1, c2)[k] ==
      if 3 * startLed <= k < 3 * (endLed + 1) then Channel(GradientAt(c1, c2, endLed - startLed, k / 3 - startLed), k % 3)
      else s[k]
  {
  }

  method Fill(buffer: array<Byte>, startLed: int, endLed: int, c1: Rgb, c2: Rgb)
    requires buffer.Length == BUFFER_LEN && FillFits(startLed, endLed)
    modifies buffer
    ensures buffer[..] == Filled(old(buffer[..]), startLed, endLed, c1, c2)
  {
    var steps := endLed - startLed;
    if steps != 0 {
      FillGradient(buffer, startLed, endLed, c1, c2);
    } else {
      buffer[startLed * 3] := c1.b;
      buffer[startLed * 3 + 1] := c1.g;
      buffer[startLed * 3 + 2] := c1.r;
    }
  }

  /** Fill's loop over startLed..endLed, taken when the range has more than one pixel or is
      empty. */
  method FillGradient(buffer: array<Byte>, startLed: int, endLed: int, c1: Rgb, c2: Rgb)
    requires buffer.Length == BUFFER_LEN && FillFits(startLed, endLed) && endLed != startLed
    modifies buffer
    ensures buffer[..] == Filled(old(buffer[..]), startLed, endLed, c1, c2)
  {
    ghost var s := buffer[..];
    var steps := endLed - startLed;
    var i := startLed;
    while i <= endLed
      invariant endLed < startLed ==> i == startLed
      invariant startLed <= endLed ==> startLed <= i <= endLed + 1
      invariant forall k {:trigger buffer[k]} :: 0 <= k < BUFFER_LEN && !(3 * startLed <= k < 3 * i) ==> buffer[k] == s[k]
      invariant forall k {:trigger buffer[k]} :: 3 * startLed <= k < 3 * i ==>
        buffer[k] == Channel(GradientAt(c1, c2, steps, k / 3 - startLed), k % 3)
    {
      var c := GradientAt(c1, c2, steps, i - startLed);
      buffer[i * 3] := c.b;
      buffer[i * 3 + 1] := c.g;
      buffer[i * 3 + 2] := c.r;
      assert (3 * i) / 3 == i && (3 * i + 1) / 3 == i && (3 * i + 2) / 3 == i;
      assert (3 * i) % 3 == 0 && (3 * i + 1) % 3 == 1 && (3 * i + 2) % 3 == 2;
      i := i + 1;
    }
    GradientWritten(s, buffer, startLed, endLed, c1, c2);
  }

  /** A buffer whose bytes for pixels startLed..endLed hold the gradient and whose other bytes
      are unchanged is the result of Fill. */
  lemma GradientWritten(s: seq<Byte>, a: array<Byte>, startLed: int, endLed: int, c1: Rgb, c2: Rgb)
    requires |s| == a.Length == BUFFER_LEN && FillFits(startLed, endLed) && endLed != startLed
    requires forall k {:trigger a[k]} :: 0 <= k < BUFFER_LEN && !(3 * startLed <= k < 3 * (endLed + 1)) ==> a[k] == s[k]
    requires forall k {:trigger a[k]} :: 3 * startLed <= k < 3 * (endLed + 1) ==>
      a[k] == Channel(GradientAt(c1, c2, endLed - startLed, k / 3 - startLed), k % 3)
    ensures a[..] == Filled(s, startLed, endLed, c1, c2)
  {
  }
}
