/** Counting the distinct colours of a picture by sampling it, and why the count is right for a presented frame.

A locked bitmap is a byte buffer with some stride and some number of bytes per pixel; a bitmap of the display has four,
blue first. */
module Sampling {
  import opened Display

  function PixelByte(argb: bv32, i: nat): bv8
    requires i < 4
  {
    if i == 0 then (argb & 0xff) as bv8
    else if i == 1 then ((argb >> 8) & 0xff) as bv8
    else if i == 2 then ((argb >> 16) & 0xff) as bv8
    else (argb >> 24) as bv8
  }

  /** The buffer of a locked 32-bit bitmap. */
  function BitmapBytes(pixels: seq<bv32>): (b: seq<bv8>)
    ensures |b| == 4 * |pixels|
  {
    seq(4 * |pixels|, j requires 0 <= j < 4 * |pixels| => PixelByte(pixels[j / 4], j % 4))
  }

  function Pack(b0: bv8, b1: bv8, b2: bv8): bv32 { ((b0 as bv32) << 16) | ((b1 as bv32) << 8) | (b2 as bv32) }

  /** A locked bitmap of any pixel format with whole bytes. A read behind the buffer counts as zero. */
  datatype Bitmap = Bitmap(width: nat, height: nat, stride: nat, bytesPerPixel: nat, buffer: seq<bv8>) {
    function ByteAt(i: nat): bv8 { if i < |buffer| then buffer[i] else 0 }

    function Offset(x: nat, y: nat): nat { y * stride + x * bytesPerPixel }

    /** The packed colour of pixel (x, y). */
    function Color(x: nat, y: nat): bv32 {
      var o := Offset(x, y);
      Pack(ByteAt(o), ByteAt(o + 1), ByteAt(o + 2))
    }
  }

  /** In bytes: rows are a stride apart, pixels their own number of bytes, and the first three bytes of a pixel make its
      colour, the first the highest. */
  lemma ColorInBytes(b: Bitmap, x: nat, y: nat)
    requires y * b.stride + x * b.bytesPerPixel + 2 < |b.buffer|
    ensures var o := y * b.stride + x * b.bytesPerPixel;
            0 <= o && b.Color(x, y) == ((b.buffer[o] as bv32) << 16) | ((b.buffer[o + 1] as bv32) << 8) |
                                       (b.buffer[o + 2] as bv32)
  {
    var o := b.Offset(x, y);
  }

  /** The colours sampled from column x of row y on. */
  function SampleRow(b: Bitmap, step: nat, x: nat, y: nat): set<bv32>
    requires step > 0
    decreases b.width - x
  {
    if x >= b.width then {}
    else {b.Color(x, y)} + SampleRow(b, step, x + step, y)
  }

  /** The colours sampled from row y on. */
  function SampleRows(b: Bitmap, step: nat, y: nat): set<bv32>
    requires step > 0
    decreases b.height - y
  {
    if y >= b.height then {}
    else SampleRow(b, step, 0, y) + SampleRows(b, step, y + step)
  }

  /** A loop that counts up by the step from 0 gets past a bound exactly when the step or the bound allows it: for a
      step below 1 the loops below would never end on a bitmap that is not empty. */
  lemma LoopEnds(bound: nat, step: int)
    ensures (exists k: nat :: k * step >= bound) <==> step > 0 || bound == 0
  {
    if step > 0 {
      StepsReach(bound, step);
    } else if bound == 0 {
      assert 0 * step >= bound;
    } else {
      forall k: nat ensures k * step < bound {
        assert k * step <= 0;
      }
    }
  }

  lemma StepsReach(bound: nat, step: nat)
    requires step > 0
    ensures bound * step >= bound
  {
  }

  /** The sampling loops, and the verdict they lead to. */
  method SampleColors(b: Bitmap, step: nat, threshold: int) returns (colors: set<bv32>, rendering: bool)
    requires step > 0
    ensures colors == SampleRows(b, step, 0)
    ensures rendering <==> |colors| >= threshold
  {
    colors := {};
    var y := 0;
    while y < b.height
      invariant colors + SampleRows(b, step, y) == SampleRows(b, step, 0)
    {
      var row := SampleOneRow(b, step, y);
      colors := colors + row;
      y := y + step;
    }
    rendering := |colors| >= threshold;
  }

  /** The inner loop. */
  method SampleOneRow(b: Bitmap, step: nat, y: nat) returns (colors: set<bv32>)
    requires step > 0
    ensures colors == SampleRow(b, step, 0, y)
  {
    colors := {};
    var row, x := y * b.stride, 0;
    while x < b.width
      invariant colors + SampleRow(b, step, x, y) == SampleRow(b, step, 0, y)
    {
      var o := row + x * b.bytesPerPixel;
      colors := colors + {Pack(b.ByteAt(o), b.ByteAt(o + 1), b.ByteAt(o + 2))};
      x := x + step;
    }
  }

  // ---- What is sampled ----

  lemma NextMultiple(x: nat, step: nat)
    requires step > 0 && x % step == 0
    ensures (x + step) % step == 0
    ensures forall k | x < k < x + step :: k % step != 0
  {
    var q := x / step;
    assert x == q * step;
    forall k | x < k < x + step ensures k % step != 0 {
      RemainderOf(q, k - x, step);
    }
    RemainderOf(q + 1, 0, step);
    assert (q + 1) * step == q * step + step;
  }

  lemma RemainderOf(q: nat, r: nat, step: nat)
    requires r < step
    ensures (q * step + r) % step == r
  {
    var n := q * step + r;
    var d := n / step - q;
    assert n == (n / step) * step + n % step;
    assert (n / step) * step == q * step + d * step;
    NoMultipleBetween(d, step);
  }

  lemma NoMultipleBetween(d: int, step: nat)
    ensures d > 0 ==> d * step >= step
    ensures d < 0 ==> d * step <= -(step as int)
  {
  }

  lemma {:induction false} SampledInRow(b: Bitmap, step: nat, x: nat, y: nat, c: bv32)
    requires step > 0 && x % step == 0
    ensures c in SampleRow(b, step, x, y) <==>
            exists i: nat :: x <= i < b.width && i % step == 0 && b.Color(i, y) == c
    decreases b.width - x
  {
    if x < b.width {
      NextMultiple(x, step);
      SampledInRow(b, step, x + step, y, c);
      if i: nat :| x <= i < b.width && i % step == 0 && b.Color(i, y) == c {
        assert i == x || i >= x + step;
      }
    }
  }

  /** Exactly the colours of the pixels whose coordinates are multiples of the step are sampled. */
  lemma {:induction false} Sampled(b: Bitmap, step: nat, y: nat, c: bv32)
    requires step > 0 && y % step == 0
    ensures c in SampleRows(b, step, y) <==>
            exists i: nat, j: nat :: y <= j < b.height && i < b.width && i % step == 0 && j % step == 0 &&
                                     b.Color(i, j) == c
    decreases b.height - y
  {
    if y < b.height {
      NextMultiple(y, step);
      SampledInRow(b, step, 0, y, c);
      Sampled(b, step, y + step, c);
      if i: nat, j: nat :| y <= j < b.height && i < b.width && i % step == 0 && j % step == 0 &&
                           b.Color(i, j) == c {
        assert j == y || j >= y + step;
      }
    }
  }

  // ---- Sampling a presented frame ----

  /** The pixels of a picture of the display: alpha is opaque, the colour is the display word's. */
  ghost predicate Pictures(pixels: seq<bv32>, aperture: seq<bv32>) {
    && |pixels| == DISPLAY_WORDS && |aperture| == APERTURE_WORDS
    && forall k | 0 <= k < DISPLAY_WORDS :: pixels[k] == 0xff00_0000 | aperture[k]
  }

  function Low24(w: bv32): bv32 { w & 0xffffff }

  /** The distinct low 24 bits of the words of a frame. */
  function FrameColors(frame: seq<bv32>): set<bv32> { set i | 0 <= i < |frame| :: Low24(frame[i]) }

  /** The display's picture, locked. */
  function DisplayBitmap(pixels: seq<bv32>): Bitmap { Bitmap(1280, 800, 5120, 4, BitmapBytes(pixels)) }

  /** The packed colour of pixel (x, y) of a picture of the display. */
  function DisplayColor(pixels: seq<bv32>, x: nat, y: nat): bv32
    requires |pixels| == DISPLAY_WORDS && x < 1280 && y < 800
  {
    DisplayBitmap(pixels).Color(x, y)
  }

  function SampleDisplay(pixels: seq<bv32>, step: nat): set<bv32>
    requires |pixels| == DISPLAY_WORDS && step > 0
  {
    SampleRows(DisplayBitmap(pixels), step, 0)
  }

  lemma SampledDisplay(pixels: seq<bv32>, step: nat, c: bv32)
    requires |pixels| == DISPLAY_WORDS && step > 0
    ensures c in SampleDisplay(pixels, step) <==>
            exists i: nat, j: nat :: i < 1280 && j < 800 && i % step == 0 && j % step == 0 &&
                                     DisplayColor(pixels, i, j) == c
  {
    hide Bitmap.Color;
    Sampled(DisplayBitmap(pixels), step, 0, c);
    assert forall i: nat, j: nat | i < 1280 && j < 800 ::
        DisplayColor(pixels, i, j) == DisplayBitmap(pixels).Color(i, j);
  }

  lemma OpaqueSwap(w: bv32)
    ensures SwapRedBlue(0xff00_0000 | SwapRedBlue(w)) == Low24(w)
  {
  }

  lemma LockedByte(pixels: seq<bv32>, k: nat, i: nat)
    requires k < |pixels| && i < 4
    ensures BitmapBytes(pixels)[4 * k + i] == PixelByte(pixels[k], i)
  {
    assert (4 * k + i) / 4 == k && (4 * k + i) % 4 == i;
  }

  lemma PackOfWord(w: bv32)
    ensures Pack(PixelByte(w, 0), PixelByte(w, 1), PixelByte(w, 2)) == SwapRedBlue(w)
  {
  }

  lemma ColorIsPacked(pixels: seq<bv32>, x: nat, y: nat)
    requires |pixels| == DISPLAY_WORDS && x < 1280 && y < 800
    ensures var b, k := BitmapBytes(pixels), PixelIndex(x, y);
            DisplayColor(pixels, x, y) == Pack(b[4 * k], b[4 * k + 1], b[4 * k + 2])
  {
    hide PixelByte, Pack, BitmapBytes;
    assert DisplayBitmap(pixels).Offset(x, y) == 4 * PixelIndex(x, y);
  }

  lemma DisplayColorIsPixel(pixels: seq<bv32>, x: nat, y: nat)
    requires |pixels| == DISPLAY_WORDS && x < 1280 && y < 800
    ensures DisplayColor(pixels, x, y) == SwapRedBlue(pixels[PixelIndex(x, y)])
  {
    hide *;
    var k := PixelIndex(x, y);
    ColorIsPacked(pixels, x, y);
    LockedByte(pixels, k, 0);
    LockedByte(pixels, k, 1);
    LockedByte(pixels, k, 2);
    PackOfWord(pixels[k]);
  }

  /** The sampled colour of a pixel of the picture is the low 24 bits of the frame word it shows. */
  lemma ColorOfFrame(pixels: seq<bv32>, aperture: seq<bv32>, frame: seq<bv32>, x: nat, y: nat)
    requires |aperture| == APERTURE_WORDS && |frame| == FRAME_WORDS && Pictures(pixels, Presented(aperture, frame))
    requires x < 1280 && y < 800
    ensures DisplayColor(pixels, x, y) == Low24(frame[ShownIndex(x, y)])
  {
    var shown, k := Presented(aperture, frame), PixelIndex(x, y);
    DisplayColorIsPixel(pixels, x, y);
    assert pixels[k] == 0xff00_0000 | shown[k];
    PresentedPixel(aperture, frame, x, y);
    OpaqueSwap(frame[ShownIndex(x, y)]);
  }

  /** No multiple of the step lies among the four coordinates from 4 * b on. */
  ghost predicate Misses(step: nat, b: nat)
    requires step > 0
  {
    forall i: nat | 4 * b <= i < 4 * b + 4 :: i % step != 0
  }

  /** Some sampled pixel shows frame word i. */
  ghost predicate IsHit(step: nat, i: nat)
    requires step > 0
  {
    !Misses(step, i % 320) && !Misses(step, i / 320)
  }

  lemma IndexOfBlock(i: nat, x: nat, y: nat)
    requires i < FRAME_WORDS && x / 4 == i % 320 && y / 4 == i / 320
    ensures x < 1280 && y < 800 && ShownIndex(x, y) == i
  {
  }

  lemma BlockOfIndex(x: nat, y: nat)
    requires x < 1280 && y < 800
    ensures ShownIndex(x, y) % 320 == x / 4 && ShownIndex(x, y) / 320 == y / 4
  {
  }

  /** What a sampled pixel shows is hit. */
  lemma ShownIsHit(step: nat, x: nat, y: nat)
    requires step > 0 && x < 1280 && y < 800 && x % step == 0 && y % step == 0
    ensures IsHit(step, ShownIndex(x, y))
  {
    BlockOfIndex(x, y);
  }

  /** What is hit is shown by a sampled pixel. */
  lemma HitIsShown(step: nat, i: nat) returns (x: nat, y: nat)
    requires step > 0 && i < FRAME_WORDS && IsHit(step, i)
    ensures x < 1280 && y < 800 && x % step == 0 && y % step == 0 && ShownIndex(x, y) == i
  {
    x :| 4 * (i % 320) <= x < 4 * (i % 320) + 4 && x % step == 0;
    y :| 4 * (i / 320) <= y < 4 * (i / 320) + 4 && y % step == 0;
    IndexOfBlock(i, x, y);
  }

  lemma SampledIsHit(pixels: seq<bv32>, aperture: seq<bv32>, frame: seq<bv32>, step: nat, c: bv32) returns (i: nat)
    requires |aperture| == APERTURE_WORDS && |frame| == FRAME_WORDS && Pictures(pixels, Presented(aperture, frame))
    requires step > 0 && c in SampleDisplay(pixels, step)
    ensures i < FRAME_WORDS && IsHit(step, i) && Low24(frame[i]) == c
  {
    assert |pixels| == DISPLAY_WORDS;
    hide SampleDisplay, DisplayColor, Presented, Pictures, ShownIndex, IsHit, Low24;
    SampledDisplay(pixels, step, c);
    var x: nat, y: nat :| x < 1280 && y < 800 && x % step == 0 && y % step == 0 && DisplayColor(pixels, x, y) == c;
    ColorOfFrame(pixels, aperture, frame, x, y);
    ShownIsHit(step, x, y);
    i := ShownIndex(x, y);
  }

  lemma HitIsSampled(pixels: seq<bv32>, aperture: seq<bv32>, frame: seq<bv32>, step: nat, i: nat)
    requires |aperture| == APERTURE_WORDS && |frame| == FRAME_WORDS && Pictures(pixels, Presented(aperture, frame))
    requires step > 0 && i < FRAME_WORDS && IsHit(step, i)
    ensures Low24(frame[i]) in SampleDisplay(pixels, step)
  {
    assert |pixels| == DISPLAY_WORDS;
    hide SampleDisplay, DisplayColor, Presented, Pictures, ShownIndex, IsHit, Low24;
    var x, y := HitIsShown(step, i);
    ColorOfFrame(pixels, aperture, frame, x, y);
    SampledDisplay(pixels, step, Low24(frame[i]));
  }

  /** For every frame and every step, what is sampled is the colours of the words that are hit. */
  lemma SampledAreHit(pixels: seq<bv32>, aperture: seq<bv32>, frame: seq<bv32>, step: nat, c: bv32)
    requires |aperture| == APERTURE_WORDS && |frame| == FRAME_WORDS && Pictures(pixels, Presented(aperture, frame))
    requires step > 0
    ensures c in SampleDisplay(pixels, step) <==>
            exists i: nat :: i < FRAME_WORDS && IsHit(step, i) && Low24(frame[i]) == c
  {
    assert |pixels| == DISPLAY_WORDS;
    hide SampleDisplay, Presented, Pictures, IsHit, Low24;
    if c in SampleDisplay(pixels, step) {
      var i := SampledIsHit(pixels, aperture, frame, step, c);
    }
    if i: nat :| i < FRAME_WORDS && IsHit(step, i) && Low24(frame[i]) == c {
      HitIsSampled(pixels, aperture, frame, step, i);
    }
  }

  /** Some word that is hit shares its low 24 bits with word k. */
  ghost predicate IsFound(frame: seq<bv32>, step: nat, k: nat)
    requires |frame| == FRAME_WORDS && step > 0 && k < FRAME_WORDS
  {
    exists i: nat :: i < FRAME_WORDS && IsHit(step, i) && Low24(frame[i]) == Low24(frame[k])
  }

  lemma FoundIsSampled(pixels: seq<bv32>, aperture: seq<bv32>, frame: seq<bv32>, step: nat, k: nat)
    requires |aperture| == APERTURE_WORDS && |frame| == FRAME_WORDS && Pictures(pixels, Presented(aperture, frame))
    requires step > 0 && k < FRAME_WORDS
    ensures IsFound(frame, step, k) <==> Low24(frame[k]) in SampleDisplay(pixels, step)
  {
    assert |pixels| == DISPLAY_WORDS;
    hide SampleDisplay, Presented, Pictures, IsHit, Low24;
    SampledAreHit(pixels, aperture, frame, step, Low24(frame[k]));
  }

  lemma SampledIsFrameColor(pixels: seq<bv32>, aperture: seq<bv32>, frame: seq<bv32>, step: nat, c: bv32)
    requires |aperture| == APERTURE_WORDS && |frame| == FRAME_WORDS && Pictures(pixels, Presented(aperture, frame))
    requires step > 0 && c in SampleDisplay(pixels, step)
    ensures c in FrameColors(frame)
  {
    assert |pixels| == DISPLAY_WORDS;
    hide SampleDisplay, Presented, Pictures, IsHit, Low24;
    SampledAreHit(pixels, aperture, frame, step, c);
  }

  lemma InFrameColors(frame: seq<bv32>)
    ensures forall k | 0 <= k < |frame| :: Low24(frame[k]) in FrameColors(frame)
    ensures forall c | c in FrameColors(frame) :: exists k :: 0 <= k < |frame| && Low24(frame[k]) == c
  {
  }

  /** For which frames a step is fine enough: sampling finds exactly the frame's distinct low-24-bit colours if and only
      if every word of the frame shares its low 24 bits with a word that is hit. */
  lemma ExactIffColorsAreFound(pixels: seq<bv32>, aperture: seq<bv32>, frame: seq<bv32>, step: nat)
    requires |aperture| == APERTURE_WORDS && |frame| == FRAME_WORDS && Pictures(pixels, Presented(aperture, frame))
    requires step > 0
    ensures SampleDisplay(pixels, step) == FrameColors(frame) <==>
            forall k: nat | k < FRAME_WORDS :: IsFound(frame, step, k)
  {
    assert |pixels| == DISPLAY_WORDS;
    hide SampleDisplay, Presented, Pictures, IsFound, FrameColors, Low24;
    InFrameColors(frame);
    forall k: nat | k < FRAME_WORDS
      ensures IsFound(frame, step, k) <==> Low24(frame[k]) in SampleDisplay(pixels, step)
    {
      FoundIsSampled(pixels, aperture, frame, step, k);
    }
    forall c | c in SampleDisplay(pixels, step) ensures c in FrameColors(frame) {
      SampledIsFrameColor(pixels, aperture, frame, step, c);
    }
  }

  /** A multiple of the step in a block. */
  lemma BlockIsHit(b: nat, step: nat)
    requires 1 <= step <= 4
    ensures !Misses(step, b)
  {
    var i := if step == 3 then (4 * b + 2) / 3 * 3 else 4 * b;
    assert step == 1 ==> i % 1 == 0;
    assert step == 2 ==> i % 2 == 0;
    assert step == 3 ==> i % 3 == 0;
    assert step == 4 ==> i % 4 == 0;
  }

  /** For every frame and every step from 1 to 4, sampling finds exactly the frame's distinct low-24-bit colours. */
  lemma SamplingIsExact(pixels: seq<bv32>, aperture: seq<bv32>, frame: seq<bv32>, step: nat)
    requires |aperture| == APERTURE_WORDS && |frame| == FRAME_WORDS && Pictures(pixels, Presented(aperture, frame))
    requires 1 <= step <= 4
    ensures SampleDisplay(pixels, step) == FrameColors(frame)
  {
    assert |pixels| == DISPLAY_WORDS;
    hide SampleDisplay, Presented, Pictures, FrameColors, Misses;
    forall i: nat | i < FRAME_WORDS ensures IsFound(frame, step, i) {
      BlockIsHit(i % 320, step);
      BlockIsHit(i / 320, step);
      assert IsHit(step, i);
    }
    ExactIffColorsAreFound(pixels, aperture, frame, step);
  }

  /** A step above 4 steps over some block of every row. */
  lemma BlockIsMissed(step: nat) returns (b: nat)
    requires step > 4
    ensures 0 < b < 320 && Misses(step, b)
  {
    b := if step == 5 then 4 else if step < 8 then 2 else 1;
  }

  /** A frame with one column of another colour. */
  function Striped(column: nat): (f: seq<bv32>)
    ensures |f| == FRAME_WORDS
  {
    seq(FRAME_WORDS, i => if i % 320 == column then 1 else 0)
  }

  function PictureOf(aperture: seq<bv32>): (p: seq<bv32>)
    requires |aperture| == APERTURE_WORDS
    ensures Pictures(p, aperture)
  {
    seq(DISPLAY_WORDS, k requires 0 <= k < DISPLAY_WORDS => 0xff00_0000 | aperture[k])
  }

  lemma StripeIsMissed(aperture: seq<bv32>, step: nat, b: nat, c: bv32)
    requires |aperture| == APERTURE_WORDS && step > 0 && b < 320
    requires Misses(step, b)
    requires c in SampleDisplay(PictureOf(Presented(aperture, Striped(b))), step)
    ensures c == 0
  {
    hide SampleDisplay, Presented, PictureOf, Striped, Misses;
    var frame := Striped(b);
    SampledAreHit(PictureOf(Presented(aperture, frame)), aperture, frame, step, c);
    forall i: nat | i < FRAME_WORDS && IsHit(step, i) ensures Low24(frame[i]) == 0 {
      StripeAt(b, i);
    }
  }

  lemma StripeAt(b: nat, i: nat)
    requires i < FRAME_WORDS && i % 320 != b
    ensures Low24(Striped(b)[i]) == 0
  {
  }

  lemma StripeHasTwoColors(b: nat)
    requires 0 < b < 320
    ensures |FrameColors(Striped(b))| >= 2
  {
    var frame := Striped(b);
    assert Low24(frame[0]) == 0 && Low24(frame[b]) == 1;
    var two: set<bv32> := {0, 1};
    assert two <= FrameColors(frame) && |two| == 2;
    SubsetCard(two, FrameColors(frame));
  }

  /** The bound on the step is exact: with a larger step some frame's colours are miscounted. */
  lemma LargerStepsMiscount(aperture: seq<bv32>, step: nat) returns (frame: seq<bv32>)
    requires |aperture| == APERTURE_WORDS && step > 4
    ensures |frame| == FRAME_WORDS
    ensures |SampleDisplay(PictureOf(Presented(aperture, frame)), step)| < |FrameColors(frame)|
  {
    var b := BlockIsMissed(step);
    frame := Striped(b);
    var sampled := SampleDisplay(PictureOf(Presented(aperture, frame)), step);
    forall c | c in sampled ensures c in {0 as bv32} {
      StripeIsMissed(aperture, step, b, c);
    }
    SubsetCard(sampled, {0});
    StripeHasTwoColors(b);
  }

  lemma {:induction false} SubsetCard<T>(a: set<T>, b: set<T>)
    requires a <= b
    ensures |a| <= |b|
    decreases |a|
  {
    if a != {} {
      var x :| x in a;
      SubsetCard(a - {x}, b - {x});
    }
  }
}
