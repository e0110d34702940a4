/** The stylisation mapper: perceived brightness, the brightness-to-glyph
    choice of the browser converter (converter.js), of the browser player
    (player.js) and of the Python pipeline (step2_convert_to_ascii.py),
    the optional one-step dither, and the dot radius of the dot style.

    Brightness `0.299 r + 0.587 g + 0.114 b` is kept exactly, scaled by
    1000, as the integer `Luma`; "brightness >= threshold" is then
    `Luma >= 1000 * threshold`. */
module Stylize {
  import opened Base

  datatype Pixel = Pixel(r: Byte, g: Byte, b: Byte)

  /** Brightness times 1000. */
  function Luma(p: Pixel): (l: nat)
    ensures l <= 255000
    ensures p.r == p.g == p.b ==> l == 1000 * p.r
    ensures l == 0 <==> p == Pixel(0, 0, 0)
  {
    299 * p.r + 587 * p.g + 114 * p.b
  }

  /** A cell is left blank ("white") when its brightness reaches the threshold. */
  predicate IsWhite(l: nat, threshold: int) {
    l >= 1000 * threshold
  }

  /** What the converter draws in one cell: nothing (`null`), a glyph, or
      JavaScript's `undefined` when the index falls outside the alphabet. */
  datatype Glyph = NoChar | Char(c: char) | Undefined

  /** `chars[k]` in JavaScript. */
  function CharAt(chars: string, k: int): (g: Glyph)
    ensures 0 <= k < |chars| ==> g == Char(chars[k])
    ensures !(0 <= k < |chars|) ==> g == Undefined
  {
    if 0 <= k < |chars| then Char(chars[k]) else Undefined
  }

  /** Noise-free glyph index shared by the converter and the player:
      `min(floor(brightness / threshold * (n - 1)), n - 2)`. */
  function GlyphIndex(l: nat, threshold: int, n: nat): (k: int)
    requires !IsWhite(l, threshold)
    requires n >= 1
    ensures n >= 2 ==> 0 <= k <= n - 2
    ensures n == 1 ==> k == -1
  {
    Min(ScaledQuot(l, n - 1, 1000 * threshold), n - 2)
  }

  /** `floor(l * m / d)` on naturals. */
  function ScaledQuot(l: nat, m: nat, d: nat): nat
    requires d > 0
  {
    (l * m) / d
  }

  lemma DivLeft(a: nat, b: nat, d: nat)
    requires d > 0 && a <= b
    ensures a / d <= b / d
  {
    var q := b / d;
    assert b < (q + 1) * d;
    DivBelow(a, q + 1, d);
  }

  lemma DivBelow(a: nat, q: nat, d: nat)
    requires d > 0 && a < q * d
    ensures a / d < q
  {
  }

  /** Brighter pixels never get an earlier (denser) glyph. */
  lemma GlyphIndexMonotone(l1: nat, l2: nat, threshold: int, n: nat)
    requires l1 <= l2 && !IsWhite(l2, threshold) && n >= 1
    ensures GlyphIndex(l1, threshold, n) <= GlyphIndex(l2, threshold, n)
  {
    MulMonotone(l1, l2, n - 1);
    DivLeft(l1 * (n - 1), l2 * (n - 1), 1000 * threshold);
  }

  /** In exact arithmetic the clamp to `n - 2` never fires: the quotient is
      already at most `n - 2`, so the last glyph is never selected. */
  lemma GlyphIndexUnclamped(l: nat, threshold: int, n: nat)
    requires !IsWhite(l, threshold) && n >= 2
    ensures GlyphIndex(l, threshold, n) == ScaledQuot(l, n - 1, 1000 * threshold)
  {
    DivBelow(l * (n - 1), n - 1, 1000 * threshold);
  }

  /** The optional one-step dither. `u1` and `u2` stand for the two
      `Math.random()` draws: noise applies when `u1 < noiseLevel`, and the
      step is down when `u2 < 0.5`. */
  function Dither(k: int, n: nat, noiseLevel: real, u1: real, u2: real): (d: int)
    ensures n >= 2 && 0 <= k <= n - 2 ==> 0 <= d <= n - 2 && -1 <= d - k <= 1
    ensures noiseLevel <= 0.0 || n <= 2 || u1 >= noiseLevel ==> d == k
  {
    if noiseLevel > 0.0 && n > 2 && u1 < noiseLevel then
      Clamp(k + (if u2 < 0.5 then -1 else 1), 0, n - 2)
    else
      k
  }

  /** Converter settings the mapper reads. */
  datatype Style = Style(chars: string, threshold: int, noiseLevel: real)

  datatype Styled = Styled(ch: Glyph, color: Pixel)

  /** `getColorAsciiChar`: the glyph for one adjusted pixel, and its colour. */
  function ColorAsciiChar(p: Pixel, st: Style, u1: real, u2: real): (s: Styled)
    requires |st.chars| >= 1
    ensures s.color == p
    ensures s.ch == NoChar <==> IsWhite(Luma(p), st.threshold)
    ensures !IsWhite(Luma(p), st.threshold) && |st.chars| >= 2 ==>
              s.ch.Char? && s.ch.c in st.chars[..|st.chars| - 1]
    ensures !IsWhite(Luma(p), st.threshold) && (st.noiseLevel <= 0.0 || |st.chars| <= 2) ==>
              s.ch == CharAt(st.chars, GlyphIndex(Luma(p), st.threshold, |st.chars|))
  {
    var l := Luma(p);
    if IsWhite(l, st.threshold) then
      Styled(NoChar, p)
    else
      var n := |st.chars|;
      var k := Dither(GlyphIndex(l, st.threshold, n), n, st.noiseLevel, u1, u2);
      Styled(CharAt(st.chars, k), p)
  }

  /** With noise, the glyph is at most one place away from the noise-free one. */
  lemma DitherStaysNear(p: Pixel, st: Style, u1: real, u2: real)
    requires |st.chars| >= 2 && !IsWhite(Luma(p), st.threshold)
    ensures exists k :: 0 <= k <= |st.chars| - 2
                && ColorAsciiChar(p, st, u1, u2).ch == Char(st.chars[k])
                && -1 <= k - GlyphIndex(Luma(p), st.threshold, |st.chars|) <= 1
  {
    var n := |st.chars|;
    var k := Dither(GlyphIndex(Luma(p), st.threshold, n), n, st.noiseLevel, u1, u2);
    assert ColorAsciiChar(p, st, u1, u2).ch == Char(st.chars[k]);
  }

  /** `getCharForBrightness` of the player: a space for white cells,
      otherwise the same noise-free choice as the converter. */
  function CharForBrightness(l: nat, chars: string, threshold: int): (g: Glyph)
    requires |chars| >= 1
    ensures IsWhite(l, threshold) ==> g == Char(' ')
    ensures !IsWhite(l, threshold) && |chars| >= 2 ==> g.Char? && g.c in chars[..|chars| - 1]
    ensures !IsWhite(l, threshold) && |chars| == 1 ==> g == Undefined
  {
    if IsWhite(l, threshold) then Char(' ')
    else CharAt(chars, GlyphIndex(l, threshold, |chars|))
  }

  /** The player, with its fixed threshold of 240, re-derives the glyph the
      converter drew with the same threshold and noise switched off. */
  lemma PlayerAgreesWithConverter(p: Pixel, chars: string, u1: real, u2: real)
    requires |chars| >= 1
    ensures var s := ColorAsciiChar(p, Style(chars, 240, 0.0), u1, u2);
            if s.ch == NoChar then CharForBrightness(Luma(p), chars, 240) == Char(' ')
            else s.ch == CharForBrightness(Luma(p), chars, 240)
  {
  }

  /** Radius of the dot drawn for a non-white cell in the dot style:
      `cellSize / 2 * min(1, (1 - brightness / 255) + 0.3)` with a 10-unit cell. */
  function DotRadius(l: nat): (rad: real)
    requires l <= 255000
    ensures 1.5 <= rad <= 5.0
    ensures l <= 76500 ==> rad == 5.0
  {
    var size := 1.0 - (l as real) / 255000.0 + 0.3;
    5.0 * (if size < 1.0 then size else 1.0)
  }

  /** Darker cells get dots at least as large as brighter ones. */
  lemma DotRadiusMonotone(l1: nat, l2: nat)
    requires l1 <= l2 <= 255000
    ensures DotRadius(l2) <= DotRadius(l1)
  {
  }

  // ----- Python pipeline (step2_convert_to_ascii.py) -----

  /** The Python alphabet and threshold are module constants. */
  const PyAsciiChars: string := "F$V* "
  const PyWhiteThreshold: int := 240
  /** Probability of the Python dither. */
  const PyNoiseLevel: real := 0.15

  /** `int(brightness / 240 * (len - 2))`, then `min(., len - 2)`, as written. */
  function PyCharIndex(l: nat, n: nat): (k: int)
    requires !IsWhite(l, PyWhiteThreshold) && n >= 2
    ensures 0 <= k <= n - 2
    ensures n >= 3 ==> k <= n - 3
  {
    var m := n - 2;
    var a := l * m;
    MulBelow(l, 240000, m);
    var q := a / 240000;
    assert m >= 1 ==> q <= m - 1 by {
      if m >= 1 { DivBelow(a, m, 240000); }
    }
    Min(q, m)
  }

  lemma MulBelow(l: nat, c: nat, m: nat)
    requires l < c
    ensures 0 <= l * m
    ensures m >= 1 ==> l * m < m * c
  {
    if m >= 1 {
      MulMonotone(l + 1, c, m);
    }
  }

  /** `get_color_ascii_char`, as written. `noise` is the caller's flag,
      `u` the `random.random()` draw and `up` the `random.choice([-1, 1])`. */
  function PyColorAsciiChar(p: Pixel, noise: bool, u: real, up: bool): (s: (Option<char>, Pixel))
    ensures s.1 == p
    ensures s.0 == None <==> IsWhite(Luma(p), PyWhiteThreshold)
    ensures s.0.Some? ==> s.0.value in PyAsciiChars[..|PyAsciiChars| - 1]
    ensures s.0.Some? && !noise ==> s.0.value in PyAsciiChars[..|PyAsciiChars| - 2]
  {
    var l := Luma(p);
    if IsWhite(l, PyWhiteThreshold) then (None, p)
    else
      var n := |PyAsciiChars|;
      var k := PyCharIndex(l, n);
      var k' := if noise && n > 2 && u < PyNoiseLevel then Clamp(k + (if up then 1 else -1), 0, n - 2) else k;
      (Some(PyAsciiChars[k']), p)
  }

  /** As written, the last drawable glyph `*` is never chosen without noise. */
  lemma PyStarUnreachable(p: Pixel, u: real, up: bool)
    ensures PyColorAsciiChar(p, false, u, up).0 != Some('*')
  {
    assert PyAsciiChars[..|PyAsciiChars| - 2] == "F$V";
  }

  /** The mapping the comment at lines 44-45 describes: indices `0 .. len-2`
      all in use, as in the browser converter (multiplier `len - 1`). */
  function PyColorAsciiCharFixed(p: Pixel, noise: bool, u: real, up: bool): (s: (Option<char>, Pixel))
    ensures s.1 == p
    ensures s.0 == None <==> IsWhite(Luma(p), PyWhiteThreshold)
    ensures s.0.Some? ==> s.0.value in PyAsciiChars[..|PyAsciiChars| - 1]
    ensures s.0.Some? && !noise ==>
              s.0 == Some(PyAsciiChars[GlyphIndex(Luma(p), PyWhiteThreshold, |PyAsciiChars|)])
  {
    var l := Luma(p);
    if IsWhite(l, PyWhiteThreshold) then (None, p)
    else
      var n := |PyAsciiChars|;
      var k := GlyphIndex(l, PyWhiteThreshold, n);
      var k' := if noise && n > 2 && u < PyNoiseLevel then Clamp(k + (if up then 1 else -1), 0, n - 2) else k;
      (Some(PyAsciiChars[k']), p)
  }

  /** With the fix every glyph but the trailing space is reachable without
      noise: grey level `60 k` selects glyph `k`. */
  lemma PyFixedReachesEveryGlyph(k: nat)
    requires k <= |PyAsciiChars| - 2
    ensures var v := 60 * k;
            PyColorAsciiCharFixed(Pixel(v, v, v), false, 0.0, false).0 == Some(PyAsciiChars[k])
  {
    var v := 60 * k;
    assert Luma(Pixel(v, v, v)) == 60000 * k;
    assert 60000 * k * 4 / 240000 == k;
  }
}
