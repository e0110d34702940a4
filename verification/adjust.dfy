/** Pixel adjustment passes of the browser converter (converter.js:53-97),
    over the flat RGBA byte layout of a canvas `ImageData`: four bytes per
    pixel, red, green, blue, alpha. Arithmetic is exact; each store into the
    clamped byte array is `ToUint8Clamp` of an exact rational. */
module Adjust {
  import opened Base
  import opened Stylize

  /** The value a `Uint8ClampedArray` keeps when assigned `n / d`: clamped
      to [0, 255] and rounded to the nearest integer, ties to even. */
  function ToUint8Clamp(n: int, d: int): (v: Byte)
    requires d > 0
    ensures n <= 0 ==> v == 0
    ensures n >= 255 * d ==> v == 255
    ensures 0 < n < 255 * d ==> -d <= 2 * (v * d - n) <= d
    ensures 0 < n < 255 * d && (2 * (v * d - n) == d || 2 * (v * d - n) == -d) ==> v % 2 == 0
  {
    if n <= 0 then 0
    else if n >= 255 * d then 255
    else
      var f := n / d;
      var rem := n % d;
      QuotRem(n, d);
      assert f < 255 by { DivBelow(n, 255, d); }
      assert (f + 1) * d == f * d + d;
      if 2 * rem > d then f + 1
      else if 2 * rem < d then f
      else if f % 2 == 1 then f + 1
      else f
  }

  lemma QuotRem(n: int, d: int)
    requires n >= 0 && d > 0
    ensures n == (n / d) * d + n % d && 0 <= n % d < d && n / d >= 0
  {
    if n / d < 0 {
      MulMonotone(n / d + 1, 0, d);
    }
  }

  /** An exact multiple of the denominator is stored unchanged. */
  lemma ToUint8ClampExact(v: Byte, d: int)
    requires d > 0
    ensures ToUint8Clamp(v * d, d) == v
  {
    if 0 < v < 255 {
      DivModUnique(v * d, d, v, 0);
      MulCancel(0, v, d);
      MulCancel(v, 255, d);
    }
  }

  /** One pixel's four bytes. */
  datatype Rgba = Rgba(px: Pixel, a: Byte)

  /** The number of pixels of an RGBA buffer. */
  function Pixels(data: seq<Byte>): nat { |data| / 4 }

  /** Pixel `p` of an RGBA buffer. */
  function At(data: seq<Byte>, p: nat): Rgba
    requires p < Pixels(data)
  {
    Rgba(Pixel(data[4 * p], data[4 * p + 1], data[4 * p + 2]), data[4 * p + 3])
  }

  function PixLuma(data: seq<Byte>, p: nat): nat
    requires p < Pixels(data)
  {
    Luma(At(data, p).px)
  }

  /** `((v + exposure) - 128) * (contrast / 100) + 128`, stored as a byte. */
  function AdjustChannel(v: Byte, contrast: int, exposure: int): (w: Byte)
    ensures contrast == 100 ==> w == Clamp(v + exposure, 0, 255)
    ensures contrast == 0 ==> w == 128
  {
    var w := ToUint8Clamp((v + exposure - 128) * contrast + 12800, 100);
    if contrast == 100 && 0 <= v + exposure <= 255 then
      ToUint8ClampExact(v + exposure, 100);
      w
    else if contrast == 0 then
      ToUint8ClampExact(128, 100);
      w
    else
      w
  }

  function AdjustPixel(p: Pixel, contrast: int, exposure: int): Pixel {
    Pixel(AdjustChannel(p.r, contrast, exposure),
          AdjustChannel(p.g, contrast, exposure),
          AdjustChannel(p.b, contrast, exposure))
  }

  /** `applyContrastExposure`: the exposure shift and the contrast scale around
      128 on the three colour channels of every pixel; alpha is never written. */
  method ApplyContrastExposure(data: seq<Byte>, contrast: int, exposure: int) returns (out: seq<Byte>)
    requires |data| % 4 == 0
    ensures |out| == |data|
    ensures forall p :: 0 <= p < Pixels(data) ==>
              At(out, p) == Rgba(AdjustPixel(At(data, p).px, contrast, exposure), At(data, p).a)
    ensures contrast == 100 && exposure == 0 ==> out == data
  {
    out := [];
    var p := 0;
    while p < Pixels(data)
      invariant p <= Pixels(data)
      invariant |out| == 4 * p
      invariant forall q :: 0 <= q < p ==>
                  At(out, q) == Rgba(AdjustPixel(At(data, q).px, contrast, exposure), At(data, q).a)
    {
      var px := At(data, p);
      var adj := AdjustPixel(px.px, contrast, exposure);
      var out' := out + [adj.r, adj.g, adj.b, px.a];
      assert forall q :: 0 <= q < p ==> At(out', q) == At(out, q);
      out := out';
      p := p + 1;
    }
    if contrast == 100 && exposure == 0 {
      forall p | 0 <= p < Pixels(data)
        ensures At(out, p) == At(data, p)
      {
        assert AdjustPixel(At(data, p).px, contrast, exposure) == At(data, p).px;
      }
      SamePixels(out, data);
    }
  }

  /** Two RGBA buffers with the same pixels are the same bytes. */
  lemma SamePixels(a: seq<Byte>, b: seq<Byte>)
    requires |a| == |b| && |a| % 4 == 0
    requires forall p :: 0 <= p < Pixels(a) ==> At(a, p) == At(b, p)
    ensures a == b
  {
    forall i | 0 <= i < |a|
      ensures a[i] == b[i]
    {
      var q := i / 4;
      QuotRem(i, 4);
      assert At(a, q) == At(b, q);
    }
  }

  /** The range of luminances, scaled by 1000, with `maxL - minL || 1`. */
  function StretchRange(lo: int, hi: int): int {
    if hi - lo == 0 then 1000 else hi - lo
  }

  /** One channel of `maximizeContrast`: multiplied by `newL / l`, where
      `newL = (l - minL) / range * 255`, or left alone when `l` is 0. */
  function StretchChannel(c: Byte, l: nat, lo: int, range: int): Byte
    requires range > 0
  {
    if l > 0 then ToUint8Clamp(c * 255000 * (l - lo), range * l) else c
  }

  function StretchPixel(p: Pixel, lo: int, range: int): Pixel
    requires range > 0
  {
    var l := Luma(p);
    Pixel(StretchChannel(p.r, l, lo, range),
          StretchChannel(p.g, l, lo, range),
          StretchChannel(p.b, l, lo, range))
  }

  /** A pixel at the minimum luminance becomes black. */
  lemma StretchMinimumIsBlack(p: Pixel, range: int)
    requires range > 0
    ensures StretchPixel(p, Luma(p), range) == Pixel(0, 0, 0)
  {
  }

  /** A channel that is scaled by a factor of at least one is not lowered. */
  lemma StretchNotDarker(c: Byte, l: nat, lo: int, range: int)
    requires range > 0 && l > 0 && lo <= l
    requires 255000 * (l - lo) >= range * l
    ensures StretchChannel(c, l, lo, range) >= c
  {
    var n := c * 255000 * (l - lo);
    var d := range * l;
    assert d > 0 by { MulCancel(0, range, l); }
    assert n >= c * d by {
      MulMonotone(range * l, 255000 * (l - lo), c);
      assert n == (255000 * (l - lo)) * c;
      assert c * d == (range * l) * c;
    }
    var v := ToUint8Clamp(n, d);
    if 0 < n < 255 * d {
      assert 2 * (v * d) >= 2 * n - d >= 2 * (c * d) - d;
      assert (c - 1) * d < v * d;
      MulCancel(c - 1, v, d);
    }
  }

  /** The brightest pixel of a frame with some spread of luminance is
      multiplied by `255 / l >= 1`: none of its channels is lowered. */
  lemma StretchMaximumNotDarker(p: Pixel, lo: int)
    requires 0 <= lo < Luma(p)
    ensures var q := StretchPixel(p, lo, StretchRange(lo, Luma(p)));
            q.r >= p.r && q.g >= p.g && q.b >= p.b
  {
    var l := Luma(p);
    assert 255000 * (l - lo) >= (l - lo) * l;
    StretchNotDarker(p.r, l, lo, l - lo);
    StretchNotDarker(p.g, l, lo, l - lo);
    StretchNotDarker(p.b, l, lo, l - lo);
  }

  /** The first loop of `maximizeContrast`: minimum and maximum luminance,
      starting from `minL = 255` and `maxL = 0`. */
  method LumaExtrema(data: seq<Byte>) returns (lo: int, hi: int)
    requires |data| % 4 == 0
    ensures lo == MinLuma(data) && hi == MaxLuma(data)
    ensures Pixels(data) == 0 ==> lo == 255000 && hi == 0
    ensures forall p :: 0 <= p < Pixels(data) ==> lo <= PixLuma(data, p) <= hi
    ensures Pixels(data) > 0 ==> exists p :: 0 <= p < Pixels(data) && PixLuma(data, p) == lo
    ensures Pixels(data) > 0 ==> exists p :: 0 <= p < Pixels(data) && PixLuma(data, p) == hi
  {
    var lumas := Lumas(data);
    lo, hi := Extrema(lumas);
    if Pixels(data) > 0 {
      var darkest :| 0 <= darkest < |lumas| && lumas[darkest] == lo;
      var brightest :| 0 <= brightest < |lumas| && lumas[brightest] == hi;
      assert PixLuma(data, darkest) == lo && PixLuma(data, brightest) == hi;
    }
  }

  /** The luminance of every pixel, in pixel order. */
  function Lumas(data: seq<Byte>): (ls: seq<int>)
    ensures |ls| == Pixels(data)
    ensures forall p :: 0 <= p < |ls| ==> ls[p] == PixLuma(data, p) && 0 <= ls[p] <= 255000
  {
    seq(Pixels(data), (p: int) requires 0 <= p < Pixels(data) => PixLuma(data, p))
  }

  /** `Math.min` folded over the values, starting from `minL = 255`. */
  function Least(ls: seq<int>): int {
    if |ls| == 0 then 255000 else Min(Least(ls[..|ls| - 1]), ls[|ls| - 1])
  }

  /** `Math.max` folded over the values, starting from `maxL = 0`. */
  function Greatest(ls: seq<int>): int {
    if |ls| == 0 then 0 else Max(Greatest(ls[..|ls| - 1]), ls[|ls| - 1])
  }

  /** The least and the greatest luminance the first loop of
      `maximizeContrast` ends with. */
  function MinLuma(data: seq<Byte>): int {
    Least(Lumas(data))
  }

  function MaxLuma(data: seq<Byte>): int {
    Greatest(Lumas(data))
  }

  /** The scan itself, over the frame's luminances in pixel order. */
  method Extrema(lumas: seq<int>) returns (lo: int, hi: int)
    requires forall p :: 0 <= p < |lumas| ==> 0 <= lumas[p] <= 255000
    ensures lo == Least(lumas) && hi == Greatest(lumas)
    ensures |lumas| == 0 ==> lo == 255000 && hi == 0
    ensures forall p :: 0 <= p < |lumas| ==> lo <= lumas[p] <= hi
    ensures |lumas| > 0 ==> exists p :: 0 <= p < |lumas| && lumas[p] == lo
    ensures |lumas| > 0 ==> exists p :: 0 <= p < |lumas| && lumas[p] == hi
  {
    lo, hi := 255000, 0;
    // the pixels where the extremes were seen
    ghost var darkest, brightest := 0, 0;
    var p := 0;
    while p < |lumas|
      invariant p <= |lumas|
      invariant lo == Least(lumas[..p]) && hi == Greatest(lumas[..p])
      invariant p == 0 ==> lo == 255000 && hi == 0
      invariant forall q :: 0 <= q < p ==> lo <= lumas[q] <= hi
      invariant p > 0 ==> darkest < p && lumas[darkest] == lo
      invariant p > 0 ==> brightest < p && lumas[brightest] == hi
    {
      var l := lumas[p];
      if l < lo || p == 0 {
        darkest := p;
      }
      if l > hi || p == 0 {
        brightest := p;
      }
      assert lumas[..p + 1][..p] == lumas[..p];
      lo := Min(lo, l);
      hi := Max(hi, l);
      p := p + 1;
    }
    assert lumas[..p] == lumas;
  }

  /** Pixel `p` has the least luminance of the frame. */
  predicate IsDarkest(data: seq<Byte>, p: nat)
    requires p < Pixels(data)
  {
    forall q :: 0 <= q < Pixels(data) ==> PixLuma(data, p) <= PixLuma(data, q)
  }

  /** Pixel `p` has the greatest luminance of the frame, and some pixel is darker. */
  predicate IsBrightestOfSpread(data: seq<Byte>, p: nat)
    requires p < Pixels(data)
  {
    && (forall q :: 0 <= q < Pixels(data) ==> PixLuma(data, q) <= PixLuma(data, p))
    && (exists q :: 0 <= q < Pixels(data) && PixLuma(data, q) < PixLuma(data, p))
  }

  /** All pixels share one luminance. */
  predicate IsUniform(data: seq<Byte>) {
    forall p, q :: 0 <= p < Pixels(data) && 0 <= q < Pixels(data) ==> PixLuma(data, p) == PixLuma(data, q)
  }

  /** The second loop of `maximizeContrast`: every pixel stretched with the
      given minimum and range, alpha copied. */
  method StretchAll(data: seq<Byte>, lo: int, range: int) returns (out: seq<Byte>)
    requires |data| % 4 == 0 && range > 0
    ensures |out| == |data|
    ensures forall p :: 0 <= p < Pixels(data) ==>
              At(out, p) == Rgba(StretchPixel(At(data, p).px, lo, range), At(data, p).a)
  {
    out := [];
    var p := 0;
    while p < Pixels(data)
      invariant p <= Pixels(data)
      invariant |out| == 4 * p
      invariant forall q :: 0 <= q < p ==>
                  At(out, q) == Rgba(StretchPixel(At(data, q).px, lo, range), At(data, q).a)
    {
      var px := At(data, p);
      var st := StretchPixel(px.px, lo, range);
      var out' := out + [st.r, st.g, st.b, px.a];
      assert forall q :: 0 <= q < p ==> At(out', q) == At(out, q);
      out := out';
      p := p + 1;
    }
  }

  /** `maximizeContrast`: stretches luminance so that the darkest pixels
      become black and the brightest are not darkened. Alpha is never written. */
  method MaximizeContrast(data: seq<Byte>) returns (out: seq<Byte>)
    requires |data| % 4 == 0
    ensures |out| == |data|
    ensures forall p :: 0 <= p < Pixels(data) ==> At(out, p).a == At(data, p).a
    ensures forall p :: 0 <= p < Pixels(data) && IsDarkest(data, p) ==>
              At(out, p).px == Pixel(0, 0, 0)
    ensures forall p :: 0 <= p < Pixels(data) && IsBrightestOfSpread(data, p) ==>
              && At(out, p).px.r >= At(data, p).px.r
              && At(out, p).px.g >= At(data, p).px.g
              && At(out, p).px.b >= At(data, p).px.b
    ensures IsUniform(data) ==> forall p :: 0 <= p < Pixels(data) ==> At(out, p).px == Pixel(0, 0, 0)
    // every pixel is stretched from the frame's own extremes
    ensures Pixels(data) == 0 ==> out == data
    ensures Pixels(data) > 0 ==> forall p :: 0 <= p < Pixels(data) ==>
              At(out, p) == Rgba(StretchPixel(At(data, p).px, MinLuma(data), StretchRange(MinLuma(data), MaxLuma(data))),
                                 At(data, p).a)
  {
    var lo, hi := LumaExtrema(data);
    if Pixels(data) == 0 {
      // No pixel: the stretch loop writes nothing.
      out := data;
      return;
    }
    out := StretchAll(data, lo, StretchRange(lo, hi));
    StretchedFrame(data, out, lo, hi);
  }

  /** What stretching every pixel from the frame's own extremes does to the
      darkest pixels, the brightest of a spread frame, and a uniform frame. */
  lemma StretchedFrame(data: seq<Byte>, out: seq<Byte>, lo: int, hi: int)
    requires |data| % 4 == 0 && |out| == |data|
    requires forall p :: 0 <= p < Pixels(data) ==> lo <= PixLuma(data, p) <= hi
    requires Pixels(data) > 0 ==> exists p :: 0 <= p < Pixels(data) && PixLuma(data, p) == lo
    requires Pixels(data) > 0 ==> exists p :: 0 <= p < Pixels(data) && PixLuma(data, p) == hi
    requires forall p :: 0 <= p < Pixels(data) ==>
               At(out, p) == Rgba(StretchPixel(At(data, p).px, lo, StretchRange(lo, hi)), At(data, p).a)
    ensures forall p :: 0 <= p < Pixels(data) && IsDarkest(data, p) ==>
              At(out, p).px == Pixel(0, 0, 0)
    ensures forall p :: 0 <= p < Pixels(data) && IsBrightestOfSpread(data, p) ==>
              && At(out, p).px.r >= At(data, p).px.r
              && At(out, p).px.g >= At(data, p).px.g
              && At(out, p).px.b >= At(data, p).px.b
    ensures IsUniform(data) ==> forall p :: 0 <= p < Pixels(data) ==> At(out, p).px == Pixel(0, 0, 0)
  {
    var range := StretchRange(lo, hi);
    forall p | 0 <= p < Pixels(data) && IsDarkest(data, p)
      ensures At(out, p).px == Pixel(0, 0, 0)
    {
      StretchMinimumIsBlack(At(data, p).px, range);
    }
    forall p | 0 <= p < Pixels(data) && IsBrightestOfSpread(data, p)
      ensures && At(out, p).px.r >= At(data, p).px.r
              && At(out, p).px.g >= At(data, p).px.g
              && At(out, p).px.b >= At(data, p).px.b
    {
      assert PixLuma(data, p) == hi;
      StretchMaximumNotDarker(At(data, p).px, lo);
    }
    if IsUniform(data) {
      forall p | 0 <= p < Pixels(data)
        ensures At(out, p).px == Pixel(0, 0, 0)
      {
        assert IsDarkest(data, p);
      }
    }
  }

  /** The fixed order of the two passes in `frameToAscii`: exposure and
      contrast first, then the stretch. */
  method AdjustFrame(data: seq<Byte>, contrast: int, exposure: int) returns (mid: seq<Byte>, out: seq<Byte>)
    requires |data| % 4 == 0
    ensures |mid| == |data| && |out| == |data|
    ensures forall p :: 0 <= p < Pixels(data) ==> At(out, p).a == At(data, p).a
    // the first pass adjusts every pixel ...
    ensures forall p :: 0 <= p < Pixels(data) ==>
              At(mid, p) == Rgba(AdjustPixel(At(data, p).px, contrast, exposure), At(data, p).a)
    // ... and the second stretches the adjusted pixels by the adjusted frame's extremes
    ensures Pixels(data) > 0 ==> forall p :: 0 <= p < Pixels(data) ==>
              At(out, p).px == StretchPixel(AdjustPixel(At(data, p).px, contrast, exposure),
                                            MinLuma(mid), StretchRange(MinLuma(mid), MaxLuma(mid)))
  {
    mid := ApplyContrastExposure(data, contrast, exposure);
    out := MaximizeContrast(mid);
    ComposePasses(data, mid, out, contrast, exposure);
  }

  /** The stretch of the adjusted frame, pixel by pixel. */
  lemma ComposePasses(data: seq<Byte>, mid: seq<Byte>, out: seq<Byte>, contrast: int, exposure: int)
    requires |data| % 4 == 0 && |mid| == |data| && |out| == |mid|
    requires forall p :: 0 <= p < Pixels(data) ==>
               At(mid, p) == Rgba(AdjustPixel(At(data, p).px, contrast, exposure), At(data, p).a)
    requires forall p :: 0 <= p < Pixels(mid) ==> At(out, p).a == At(mid, p).a
    requires Pixels(mid) > 0 ==> forall p :: 0 <= p < Pixels(mid) ==>
               At(out, p) == Rgba(StretchPixel(At(mid, p).px, MinLuma(mid), StretchRange(MinLuma(mid), MaxLuma(mid))),
                                  At(mid, p).a)
    ensures forall p :: 0 <= p < Pixels(data) ==> At(out, p).a == At(data, p).a
    ensures Pixels(data) > 0 ==> forall p :: 0 <= p < Pixels(data) ==>
              At(out, p).px == StretchPixel(AdjustPixel(At(data, p).px, contrast, exposure),
                                            MinLuma(mid), StretchRange(MinLuma(mid), MaxLuma(mid)))
  {
    assert Pixels(mid) == Pixels(data);
  }
}
