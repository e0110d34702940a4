/** Grid and canvas dimensions: the character grid of `frameToAscii`
    (converter.js:104-122) and of the binary path (converter.js:456-458),
    the codec level choice `getAvcCodec` (converter.js:556-570), and the
    grid of the Python pipeline (step2_convert_to_ascii.py:112-121).
    Arithmetic is exact; floating-point rounding is not modelled. */
module Geometry {
  import opened Base

  const CharWidth: nat := 10
  const CharHeight: nat := 18
  const MaxWidth: nat := 1920
  const MaxHeight: nat := 1080

  /** `floor(asciiWidth * (srcH / srcW) / charAspect)`, where the character
      aspect is 18/10, or 1 for square cells. The source does not guard the
      division: a zero-width source canvas makes the ratio Infinity or NaN,
      and no finite height comes out (None). */
  function GridHeight(asciiWidth: nat, srcW: nat, srcH: nat, square: bool): (h: Option<nat>)
    ensures h.None? <==> srcW == 0
    ensures h.Some? && square ==> h.value * srcW <= asciiWidth * srcH < (h.value + 1) * srcW
    ensures h.Some? && !square ==>
              h.value * (srcW * 18) <= asciiWidth * srcH * 10 < (h.value + 1) * (srcW * 18)
  {
    if srcW == 0 then None
    else if square then Some(Quot(asciiWidth * srcH, srcW))
    else Some(Quot(asciiWidth * srcH * 10, srcW * 18))
  }

  /** Integer division of naturals, with the bracket that defines it. */
  function Quot(a: nat, d: nat): (q: nat)
    requires d > 0
    ensures q * d <= a < (q + 1) * d
  {
    NatDiv(a, d);
    a / d
  }

  lemma NatDiv(a: nat, d: nat)
    requires d > 0
    ensures 0 <= a / d
    ensures (a / d) * d <= a < (a / d + 1) * d
  {
    FloorDiv(a, d);
    if a / d < 0 {
      MulMonotone(a / d + 1, 0, d);
    }
  }

  datatype Size = Size(w: nat, h: nat)

  /** `x - (x % 2)`. */
  function Even(x: nat): (e: nat)
    ensures e % 2 == 0 && e <= x <= e + 1
  {
    x - x % 2
  }

  /** The 1080p cap: both sides scaled by `min(1920 / W, 1080 / H)` and floored. */
  function Cap(W: nat, H: nat): Size {
    if W <= MaxWidth && H <= MaxHeight then Size(W, H)
    else if H == 0 then Size(MaxWidth, 0)
    else if W == 0 then Size(0, MaxHeight)
    else if MaxWidth * H <= MaxHeight * W then Size(MaxWidth, (H * MaxWidth) / W)
    else Size((W * MaxHeight) / H, MaxHeight)
  }

  lemma CapBounds(W: nat, H: nat)
    ensures var c := Cap(W, H);
            && c.w <= MaxWidth && c.h <= MaxHeight && c.w <= W && c.h <= H
            && (W > MaxWidth || H > MaxHeight ==> c.w == MaxWidth || c.h == MaxHeight)
            && (W > 0 && H > 0 ==>
                  (c.h * W <= c.w * H < (c.h + 1) * W) || (c.w * H <= c.h * W < (c.w + 1) * H))
  {
    if W <= MaxWidth && H <= MaxHeight {
    } else if H == 0 || W == 0 {
    } else if MaxWidth * H <= MaxHeight * W {
      CapWide(W, H);
    } else {
      CapTall(W, H);
    }
  }

  /** Width-bound case: the width becomes 1920 and the height follows. */
  lemma CapWide(W: nat, H: nat)
    requires W > 0 && H > 0 && (W > MaxWidth || H > MaxHeight) && MaxWidth * H <= MaxHeight * W
    ensures var q := (H * MaxWidth) / W;
            q <= MaxHeight && MaxWidth <= W && q <= H && q * W <= MaxWidth * H < (q + 1) * W
  {
    var q := (H * MaxWidth) / W;
    FloorDiv(H * MaxWidth, W);
    assert (MaxHeight + 1) * W == MaxHeight * W + W;
    MulCancel(q, MaxHeight + 1, W);
    MulMonotone(MaxWidth, W, H);
    assert (H + 1) * W == H * W + W;
    MulCancel(q, H + 1, W);
  }

  /** Height-bound case: the height becomes 1080 and the width follows. */
  lemma CapTall(W: nat, H: nat)
    requires W > 0 && H > 0 && (W > MaxWidth || H > MaxHeight) && MaxWidth * H > MaxHeight * W
    ensures var q := (W * MaxHeight) / H;
            q <= MaxWidth && MaxHeight <= H && q <= W && q * H <= MaxHeight * W < (q + 1) * H
  {
    var q := (W * MaxHeight) / H;
    FloorDiv(W * MaxHeight, H);
    assert (MaxWidth + 1) * H == MaxWidth * H + H;
    MulCancel(q, MaxWidth + 1, H);
    MulMonotone(MaxHeight, H, W);
    assert (W + 1) * H == W * H + H;
    MulCancel(q, W + 1, H);
  }

  /** Output canvas size of `frameToAscii` for a grid of `asciiWidth` by
      `asciiHeight` cells: 10 x 18 units per cell, capped at 1920 x 1080,
      then rounded down to even sides. */
  function OutputSize(asciiWidth: nat, asciiHeight: nat): (s: Size)
    ensures s.w % 2 == 0 && s.h % 2 == 0
    ensures s.w <= MaxWidth && s.h <= MaxHeight
    ensures s.w <= asciiWidth * CharWidth && s.h <= asciiHeight * CharHeight
    ensures asciiWidth * CharWidth <= MaxWidth && asciiHeight * CharHeight <= MaxHeight ==>
              s.w + 1 >= asciiWidth * CharWidth && s.h + 1 >= asciiHeight * CharHeight
    ensures asciiWidth * CharWidth > MaxWidth || asciiHeight * CharHeight > MaxHeight ==>
              s.w == MaxWidth || s.h == MaxHeight
  {
    var W := asciiWidth * CharWidth;
    var H := asciiHeight * CharHeight;
    CapBounds(W, H);
    var c := Cap(W, H);
    Size(Even(c.w), Even(c.h))
  }

  /** Pixel counts up to which each AVC level is chosen. */
  const AvcLimits: seq<nat> := [921600, 2073600, 8294400]
  const AvcCodecs: seq<string> := ["avc1.64001F", "avc1.640028", "avc1.640033", "avc1.64003E"]

  /** The level tier `getAvcCodec` picks: the least tier whose limit covers
      `width * height` (tier 3 has no limit). */
  function AvcTier(width: nat, height: nat): (t: nat)
    ensures t < 4
    ensures t < 3 ==> width * height <= AvcLimits[t]
    ensures t > 0 ==> width * height > AvcLimits[t - 1]
  {
    var pixels := width * height;
    if pixels <= 921600 then 0
    else if pixels <= 2073600 then 1
    else if pixels <= 8294400 then 2
    else 3
  }

  function AvcCodec(width: nat, height: nat): string {
    AvcCodecs[AvcTier(width, height)]
  }

  /** A larger frame never gets a lower level. */
  lemma AvcTierMonotone(w1: nat, h1: nat, w2: nat, h2: nat)
    requires w1 * h1 <= w2 * h2
    ensures AvcTier(w1, h1) <= AvcTier(w2, h2)
  {
  }

  /** Every canvas `frameToAscii` produces is encoded at level 3.1 or 4.0. */
  lemma OutputSizeAvcTier(asciiWidth: nat, asciiHeight: nat)
    ensures var s := OutputSize(asciiWidth, asciiHeight);
            AvcTier(s.w, s.h) <= 1 && AvcCodec(s.w, s.h) in ["avc1.64001F", "avc1.640028"]
  {
    var s := OutputSize(asciiWidth, asciiHeight);
    MulMonotone(s.w, MaxWidth, s.h);
    MulMonotone(s.h, MaxHeight, MaxWidth);
  }

  // ----- Python pipeline -----

  /** `output_height = int(output_width * (height / width) / (18 / 10))` and the
      image size `(output_width * 10, output_height * 18)`; a zero frame width
      raises `ZeroDivisionError`. */
  function PyGridSize(outputWidth: int, frameW: nat, frameH: nat): (r: Result<(int, int, int), string>)
    ensures r.Err? <==> frameW == 0
    ensures r.Ok? ==> r.value.1 == outputWidth * CharWidth && r.value.2 == r.value.0 * CharHeight
    ensures r.Ok? && outputWidth >= 0 ==>
              var oh := r.value.0;
              oh >= 0 && oh * (frameW * 18) <= outputWidth * frameH * 10 < (oh + 1) * (frameW * 18)
  {
    if frameW == 0 then Err("ZeroDivisionError")
    else
      var num := outputWidth * frameH * 10;
      var den: nat := frameW * 18;
      var oh := Trunc(num as real / den as real);
      if outputWidth >= 0 then
        var w: nat := outputWidth;
        assert num == (w * frameH) * 10;
        TruncIsDiv(num, den);
        FloorDiv(num, den);
        Ok((oh, outputWidth * CharWidth, oh * CharHeight))
      else
        Ok((oh, outputWidth * CharWidth, oh * CharHeight))
  }

  /** For non-negative operands, truncating the real quotient is integer division. */
  lemma TruncIsDiv(a: nat, d: nat)
    requires d > 0
    ensures Trunc(a as real / d as real) == a / d
  {
    var q := a / d;
    FloorDiv(a, d);
    IntToRealMul(q, d);
    IntToRealMul(q + 1, d);
    RealQuotBounds(a as real, d as real, q as real);
  }

  lemma RealQuotBounds(a: real, d: real, q: real)
    requires d > 0.0 && q * d <= a < (q + 1.0) * d
    ensures q <= a / d < q + 1.0
  {
    var x := a / d;
    assert x * d == a;
    var e := q + 1.0 - x;
    assert e * d == (q + 1.0) * d - a;
    assert e * d > 0.0;
    assert e > 0.0;
  }
}
