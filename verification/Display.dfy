/** The picture a presented frame makes in the display aperture.

A frame is 320 by 200 words, 0xAABBGGRR; the display is the first 1280 by 800 words of a larger flat aperture, each
0x00RRGGBB. Presenting enlarges the frame four times in both directions and swaps red and blue. */
module Display {

  const FRAME_WORDS: nat := 64000
  const FRAME_BYTES: nat := 256000
  const DISPLAY_WORDS: nat := 1024000
  const APERTURE_WORDS: nat := 4194304

  /** A 32-bit unsigned integer; arithmetic on it must be proved not to overflow. */
  newtype ULONG = x: int | 0 <= x < 0x1_0000_0000

  function Word(b0: bv8, b1: bv8, b2: bv8, b3: bv8): bv32 {
    (b0 as bv32) | ((b1 as bv32) << 8) | ((b2 as bv32) << 16) | ((b3 as bv32) << 24)
  }

  function WordAt(bytes: seq<bv8>, i: nat): bv32
    requires 4 * i + 4 <= |bytes|
  {
    Word(bytes[4 * i], bytes[4 * i + 1], bytes[4 * i + 2], bytes[4 * i + 3])
  }

  /** The frame in the first FRAME_BYTES bytes of a buffer. */
  function Frame(bytes: seq<bv8>): (f: seq<bv32>)
    requires FRAME_BYTES <= |bytes|
    ensures |f| == FRAME_WORDS
  {
    seq(FRAME_WORDS, i requires 0 <= i < FRAME_WORDS => WordAt(bytes, i))
  }

  function SwapRedBlue(rgba: bv32): bv32 {
    var red := rgba & 0xff;
    var green := (rgba >> 8) & 0xff;
    var blue := (rgba >> 16) & 0xff;
    (red << 16) | (green << 8) | blue
  }

  /** The display word of pixel (x, y). */
  function PixelIndex(x: nat, y: nat): (k: nat)
    requires x < 1280 && y < 800
    ensures k < DISPLAY_WORDS
  {
    y * 1280 + x
  }

  /** The frame word that pixel (x, y) shows. */
  function ShownIndex(x: nat, y: nat): (i: nat)
    requires x < 1280 && y < 800
    ensures i < FRAME_WORDS
  {
    y / 4 * 320 + x / 4
  }

  /** The frame word shown by display word k. */
  function SourceIndex(k: nat): (i: nat)
    requires k < DISPLAY_WORDS
    ensures i < FRAME_WORDS
  {
    k / 1280 / 4 * 320 + k % 1280 / 4
  }

  function Presented(aperture: seq<bv32>, frame: seq<bv32>): (a: seq<bv32>)
    requires |aperture| == APERTURE_WORDS && |frame| == FRAME_WORDS
    ensures |a| == APERTURE_WORDS
  {
    seq(APERTURE_WORDS, k requires 0 <= k < APERTURE_WORDS =>
      if k < DISPLAY_WORDS then SwapRedBlue(frame[SourceIndex(k)]) else aperture[k])
  }

  /** In bytes: red and blue change places, green stays, alpha becomes zero. */
  lemma SwapOfBytes(red: bv8, green: bv8, blue: bv8, alpha: bv8)
    ensures SwapRedBlue(Word(red, green, blue, alpha)) == Word(blue, green, red, 0)
  {
  }

  /** After presenting any frame, display pixel (x, y) is the swapped, alpha-cleared source word at (x / 4, y / 4), and
      every word outside the display is untouched. */
  lemma PresentedAt(aperture: seq<bv32>, frame: seq<bv32>)
    requires |aperture| == APERTURE_WORDS && |frame| == FRAME_WORDS
    ensures forall x, y | 0 <= x < 1280 && 0 <= y < 800 ::
              Presented(aperture, frame)[y * 1280 + x] == SwapRedBlue(frame[y / 4 * 320 + x / 4])
    ensures Presented(aperture, frame)[DISPLAY_WORDS..] == aperture[DISPLAY_WORDS..]
  {
    hide Presented, SwapRedBlue, SourceIndex;
    forall x, y | 0 <= x < 1280 && 0 <= y < 800
      ensures Presented(aperture, frame)[y * 1280 + x] == SwapRedBlue(frame[y / 4 * 320 + x / 4])
    {
      PresentedPixel(aperture, frame, x, y);
      assert PixelIndex(x, y) == y * 1280 + x && ShownIndex(x, y) == y / 4 * 320 + x / 4;
    }
    PresentedTail(aperture, frame);
  }

  lemma SwapOfWord(red: bv8, green: bv8, blue: bv8, alpha: bv8)
    ensures SwapRedBlue(Word(red, green, blue, alpha)) ==
            ((red as bv32) << 16) | ((green as bv32) << 8) | (blue as bv32)
  {
  }

  lemma BytesOfWord(source: seq<bv8>, o: nat, i: nat)
    requires FRAME_BYTES <= |source| && i < FRAME_WORDS && o == 4 * i
    ensures o + 3 < |source|
    ensures SwapRedBlue(Frame(source)[i]) ==
            ((source[o] as bv32) << 16) | ((source[o + 1] as bv32) << 8) | (source[o + 2] as bv32)
  {
    hide Word, SwapRedBlue;
    SwapOfWord(source[o], source[o + 1], source[o + 2], source[o + 3]);
  }

  lemma IndicesOf(x: nat, y: nat)
    requires x < 1280 && y < 800
    ensures PixelIndex(x, y) == y * 1280 + x && ShownIndex(x, y) == y / 4 * 320 + x / 4
  {
  }

  /** From bytes to the display: pixel (x, y) shows the red, green and blue bytes, four bytes a pixel and 320 pixels a
      row, of the pixel at (x / 4, y / 4) of the buffer. */
  lemma BytesOnDisplay(aperture: seq<bv32>, source: seq<bv8>, x: nat, y: nat)
    requires |aperture| == APERTURE_WORDS && FRAME_BYTES <= |source| && x < 1280 && y < 800
    ensures var o := 4 * (y / 4 * 320 + x / 4);
            && o + 3 < |source|
            && Presented(aperture, Frame(source))[y * 1280 + x] ==
               ((source[o] as bv32) << 16) | ((source[o + 1] as bv32) << 8) | (source[o + 2] as bv32)
  {
    hide *;
    IndicesOf(x, y);
    PresentedPixel(aperture, Frame(source), x, y);
    var i := ShownIndex(x, y);
    BytesOfWord(source, 4 * i, i);
  }

  lemma PresentedTail(aperture: seq<bv32>, frame: seq<bv32>)
    requires |aperture| == APERTURE_WORDS && |frame| == FRAME_WORDS
    ensures Presented(aperture, frame)[DISPLAY_WORDS..] == aperture[DISPLAY_WORDS..]
  {
  }

  lemma PresentedPixel(aperture: seq<bv32>, frame: seq<bv32>, x: nat, y: nat)
    requires |aperture| == APERTURE_WORDS && |frame| == FRAME_WORDS && x < 1280 && y < 800
    ensures Presented(aperture, frame)[PixelIndex(x, y)] == SwapRedBlue(frame[ShownIndex(x, y)])
  {
    SourceIndexAt(x, y);
  }

  lemma SourceIndexAt(x: nat, y: nat)
    requires x < 1280 && y < 800
    ensures SourceIndex(PixelIndex(x, y)) == ShownIndex(x, y)
  {
    RowAndColumn(x, y);
  }

  lemma RowAndColumn(x: nat, y: nat)
    requires x < 1280
    ensures (y * 1280 + x) / 1280 == y && (y * 1280 + x) % 1280 == x
  {
  }

  /** The top left pixel of the block that shows frame word i. */
  function BlockIndex(i: nat): (k: nat)
    requires i < FRAME_WORDS
    ensures k < DISPLAY_WORDS && SourceIndex(k) == i
  {
    var x, y := i % 320 * 4, i / 320 * 4;
    SourceIndexAt(x, y);
    PixelIndex(x, y)
  }

  /** Sampling one pixel of each 4 by 4 block and swapping back. */
  function Recovered(aperture: seq<bv32>): seq<bv32>
    requires |aperture| == APERTURE_WORDS
  {
    seq(FRAME_WORDS, i requires 0 <= i < FRAME_WORDS => SwapRedBlue(aperture[BlockIndex(i)]))
  }

  /** The display determines the low 24 bits of every word of the frame it shows. */
  lemma PresentRoundTrip(aperture: seq<bv32>, frame: seq<bv32>)
    requires |aperture| == APERTURE_WORDS && |frame| == FRAME_WORDS
    ensures Recovered(Presented(aperture, frame)) ==
            seq(FRAME_WORDS, i requires 0 <= i < FRAME_WORDS => frame[i] & 0xffffff)
  {
  }

  /** A later frame replaces an earlier one completely; presenting a frame again changes nothing. */
  lemma LastFrameWins(aperture: seq<bv32>, first: seq<bv32>, second: seq<bv32>)
    requires |aperture| == APERTURE_WORDS && |first| == FRAME_WORDS && |second| == FRAME_WORDS
    ensures Presented(Presented(aperture, first), second) == Presented(aperture, second)
  {
  }
}
