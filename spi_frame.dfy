/** displayBuffer: the bytes one refresh of the strip hands to the SPI bus. Four zero bytes open
    the frame, every pixel follows as a header byte and its three stored bytes (blue, green, red),
    and four 0xFF bytes close it. */
module SpiFrame {
  import opened StripBuffer

  /** The global brightness every pixel header carries in its low five bits. */
  const BRIGHTNESS: bv8 := 7
  const START_BYTES: seq<Byte> := [0x00, 0x00, 0x00, 0x00]
  const END_BYTES: seq<Byte> := [0xFF, 0xFF, 0xFF, 0xFF]
  const FRAME_LEN: nat := 4 + 4 * NUM_LEDS + 4

  /** The per-pixel header: three marker bits followed by the 5-bit brightness field. */
  function Header(): (h: Byte)
    ensures h == 0xE7
  {
    (0xE0 | (0x1F & BRIGHTNESS)) as int
  }

  /** The bytes sent for the first n pixels of a buffer. */
  function PixelFrames(s: seq<Byte>, n: nat): (r: seq<Byte>)
    requires 3 * n <= |s|
    ensures |r| == 4 * n
  {
    if n == 0 then []
    else PixelFrames(s, n - 1) + [Header(), s[3 * (n - 1)], s[3 * (n - 1) + 1], s[3 * (n - 1) + 2]]
  }

  /** The four bytes at slot i of a run of pixel frames. */
  function Slot(r: seq<Byte>, i: nat): seq<Byte>
    requires 4 * i + 4 <= |r|
  {
    r[4 * i..4 * i + 4]
  }

  /** Slot i of the pixel frames is the header followed by pixel i's stored bytes. */
  lemma {:induction false} PixelFramesSlots(s: seq<Byte>, n: nat)
    requires 3 * n <= |s|
    ensures forall i :: 0 <= i < n ==> Slot(PixelFrames(s, n), i) == [Header(), s[3 * i], s[3 * i + 1], s[3 * i + 2]]
  {
    if n > 0 {
      PixelFramesSlots(s, n - 1);
      var prev := PixelFrames(s, n - 1);
      var r := PixelFrames(s, n);
      forall i | 0 <= i < n
        ensures Slot(r, i) == [Header(), s[3 * i], s[3 * i + 1], s[3 * i + 2]]
      {
        if i < n - 1 {
          assert Slot(r, i) == Slot(prev, i);
        }
      }
    }
  }

  /** The whole frame displayBuffer sends for a buffer. */
  function Frame(s: seq<Byte>): (r: seq<Byte>)
    requires |s| == BUFFER_LEN
    ensures |r| == FRAME_LEN == 2592
    ensures r[..4] == START_BYTES && r[FRAME_LEN - 4..] == END_BYTES
  {
    START_BYTES + PixelFrames(s, NUM_LEDS) + END_BYTES
  }

  /** Pixel i's four bytes sit at offset 4 + 4i of the frame: 0xE7, then the stored blue,
      green and red bytes. */
  lemma FrameLayout(s: seq<Byte>, i: nat)
    requires |s| == BUFFER_LEN && i < NUM_LEDS
    ensures Frame(s)[4 + 4 * i..8 + 4 * i] == [0xE7, s[3 * i], s[3 * i + 1], s[3 * i + 2]]
  {
    PixelFramesSlots(s, NUM_LEDS);
    assert Slot(PixelFrames(s, NUM_LEDS), i) == [0xE7, s[3 * i], s[3 * i + 1], s[3 * i + 2]];
    assert Frame(s)[4 + 4 * i..8 + 4 * i] == Slot(PixelFrames(s, NUM_LEDS), i);
  }

  /** What the strip takes from a frame: the three colour bytes after every pixel header. */
  function ShownBytes(frame: seq<Byte>): (s: seq<Byte>)
    requires |frame| == FRAME_LEN
    ensures |s| == BUFFER_LEN
  {
    seq(BUFFER_LEN, k requires 0 <= k < BUFFER_LEN => frame[4 + 4 * (k / 3) + 1 + k % 3])
  }

  /** The frame loses nothing: the strip recovers exactly the buffer's bytes. */
  lemma ShownBytesOfFrame(s: seq<Byte>)
    requires |s| == BUFFER_LEN
    ensures ShownBytes(Frame(s)) == s
  {
    forall k | 0 <= k < BUFFER_LEN
      ensures ShownBytes(Frame(s))[k] == s[k]
    {
      var i := k / 3;
      FrameLayout(s, i);
      assert Frame(s)[4 + 4 * i + 1 + k % 3] == Frame(s)[4 + 4 * i..8 + 4 * i][1 + k % 3];
    }
  }

  method DisplayBuffer(buffer: array<Byte>) returns (sent: seq<Byte>)
    requires buffer.Length == BUFFER_LEN
    ensures sent == Frame(buffer[..])
  {
    // the four opening zero bytes
    sent := [];
    var i := 0;
    while i < 4
      invariant 0 <= i <= 4
      invariant sent == START_BYTES[..i]
    {
      sent := sent + [0x00];
      i := i + 1;
    }
    // a header byte and the three stored bytes of each pixel
    i := 0;
    while i < NUM_LEDS
      invariant 0 <= i <= NUM_LEDS
      invariant sent == START_BYTES + PixelFrames(buffer[..], i)
    {
      var ledFrame := [(0xE0 | (0x1F & BRIGHTNESS)) as int, buffer[i * 3], buffer[i * 3 + 1], buffer[i * 3 + 2]];
      sent := sent + ledFrame;
      i := i + 1;
    }
    // the four closing 0xFF bytes
    i := 0;
    while i < 4
      invariant 0 <= i <= 4
      invariant sent == START_BYTES + PixelFrames(buffer[..], NUM_LEDS) + END_BYTES[..i]
    {
      sent := sent + [0xFF];
      i := i + 1;
    }
  }
}
