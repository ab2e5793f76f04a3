/** The whole way round: a frame is presented, the display is dumped as a PPM file, the file is read back, and the
picture is sampled. The emulator's dump is taken to write each display word's red, green and blue bytes in row order. */
module ScreenCheck {
  import opened Helpers
  import opened Display
  import opened Sampling
  import Ppm

  function ColorByte(w: bv32, i: nat): bv8
    requires i < 3
  {
    if i == 0 then ((w >> 16) & 0xff) as bv8 else if i == 1 then ((w >> 8) & 0xff) as bv8 else (w & 0xff) as bv8
  }

  function DumpBody(aperture: seq<bv32>): (b: seq<bv8>)
    requires |aperture| == APERTURE_WORDS
    ensures |b| == 3 * DISPLAY_WORDS
  {
    seq(3 * DISPLAY_WORDS, j requires 0 <= j < 3 * DISPLAY_WORDS => ColorByte(aperture[j / 3], j % 3))
  }

  lemma PackColorBytes(w: bv32)
    ensures Ppm.PackArgb(ColorByte(w, 0), ColorByte(w, 1), ColorByte(w, 2)) == 0xff00_0000 | (w & 0xffffff)
  {
  }

  lemma DumpedPixel(aperture: seq<bv32>, k: nat)
    requires |aperture| == APERTURE_WORDS && k < DISPLAY_WORDS
    ensures Ppm.PackAll(DumpBody(aperture), 0, DISPLAY_WORDS)[k] == 0xff00_0000 | (aperture[k] & 0xffffff)
  {
    var b := DumpBody(aperture);
    assert b[k * 3] == ColorByte(aperture[k], 0);
    assert b[k * 3 + 1] == ColorByte(aperture[k], 1);
    assert b[k * 3 + 2] == ColorByte(aperture[k], 2);
    PackColorBytes(aperture[k]);
  }

  lemma PresentedHasNoAlpha(aperture: seq<bv32>, frame: seq<bv32>, k: nat)
    requires |aperture| == APERTURE_WORDS && |frame| == FRAME_WORDS && k < DISPLAY_WORDS
    ensures Presented(aperture, frame)[k] & 0xffffff == Presented(aperture, frame)[k]
  {
  }

  lemma DumpIsPicture(aperture: seq<bv32>, frame: seq<bv32>)
    requires |aperture| == APERTURE_WORDS && |frame| == FRAME_WORDS
    ensures var shown := Presented(aperture, frame); Pictures(Ppm.PackAll(DumpBody(shown), 0, DISPLAY_WORDS), shown)
  {
    var shown := Presented(aperture, frame);
    var pixels := Ppm.PackAll(DumpBody(shown), 0, DISPLAY_WORDS);
    forall k | 0 <= k < DISPLAY_WORDS ensures pixels[k] == 0xff00_0000 | shown[k] {
      DumpedPixel(shown, k);
      PresentedHasNoAlpha(aperture, frame, k);
    }
  }

  /** For every frame, every way of printing the header and every sampling step from 1 to 4, the colours counted in the
      screenshot are exactly the distinct low-24-bit colours of the frame that was presented. */
  lemma ScreenshotCountsFrameColors(aperture: seq<bv32>, frame: seq<bv32>, f: Ppm.File, step: nat,
                                    other: seq<bv8> -> Option<int>)
    requires |aperture| == APERTURE_WORDS && |frame| == FRAME_WORDS && 1 <= step <= 4
    requires f.Valid(other) && Ppm.ToInt32(f.width, other) == Some(1280) && Ppm.ToInt32(f.height, other) == Some(800)
    requires f.body == DumpBody(Presented(aperture, frame))
    ensures var r := Ppm.Parse(f.Print(), other);
            && r.Ok? && r.value.width == 1280 && r.value.height == 800 && |r.value.pixels| == DISPLAY_WORDS
            && SampleDisplay(r.value.pixels, step) == FrameColors(frame)
  {
    Ppm.PpmRoundTrip(f, other);
    DumpIsPicture(aperture, frame);
    SamplingIsExact(Ppm.PackAll(f.body, 0, DISPLAY_WORDS), aperture, frame, step);
  }
}
