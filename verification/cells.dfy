/** Per-cell output encodings of the converter: the text cell captured by
    `frameToAscii` (converter.js:170-182), the RGB triple of the binary
    frame written by `convertToBinaryRGB` (converter.js:474-502), and the
    player's reading of a text cell, `parsePixel` (player.js:197-224). */
module Cells {
  import opened Base
  import opened Stylize
  import opened Adjust

  /** A captured text cell: `""`, a bare grey value, or `[r, g, b]`. */
  datatype Cell = Blank | Gray(v: Byte) | Rgb(r: Byte, g: Byte, b: Byte)

  const White: Pixel := Pixel(255, 255, 255)

  /** The colour a cell stands for: blank cells are paper white. */
  function CellColor(c: Cell): Pixel {
    match c
    case Blank => White
    case Gray(v) => Pixel(v, v, v)
    case Rgb(r, g, b) => Pixel(r, g, b)
  }

  /** The text cell captured for one adjusted pixel. */
  function TextCell(p: Pixel, threshold: int): (c: Cell)
    ensures c == Blank <==> IsWhite(Luma(p), threshold)
    ensures c.Gray? <==> !IsWhite(Luma(p), threshold) && p.r == p.g == p.b
    ensures c.Rgb? <==> !IsWhite(Luma(p), threshold) && !(p.r == p.g == p.b)
    ensures c != Blank ==> CellColor(c) == p
  {
    if IsWhite(Luma(p), threshold) then Blank
    else if p.r == p.g == p.b then Gray(p.r)
    else Rgb(p.r, p.g, p.b)
  }

  /** Cell `(x, y)` of the grid as a flat pixel index is in range, and
      division by the width recovers the coordinates. */
  lemma GridIndex(x: nat, y: nat, w: nat, h: nat)
    requires x < w && y < h
    ensures y * w + x < w * h
    ensures (y * w + x) / w == y && (y * w + x) % w == x
  {
    MulMonotone(y + 1, h, w);
    DivModUnique(y * w + x, w, y, x);
  }

  /** The adjusted pixel under cell `(x, y)`. */
  function PixelAt(data: seq<Byte>, w: nat, h: nat, x: nat, y: nat): Pixel
    requires |data| == 4 * (w * h) && x < w && y < h
  {
    GridIndex(x, y, w, h);
    At(data, y * w + x).px
  }

  /** The binary frame's bytes for cell `(x, y)`, read back as a pixel. */
  function TripleAt(out: seq<Byte>, w: nat, h: nat, x: nat, y: nat): Pixel
    requires |out| == 3 * (w * h) && x < w && y < h
  {
    GridIndex(x, y, w, h);
    Triple(out, y * w + x)
  }

  /** The text grid of one frame: `h` rows of `w` cells, row-major. The mask
      set is not an input: masked cells are captured like any other. */
  function CaptureText(data: seq<Byte>, w: nat, h: nat, threshold: int): (grid: seq<seq<Cell>>)
    requires |data| == 4 * (w * h)
    ensures |grid| == h
    ensures forall y :: 0 <= y < h ==> |grid[y]| == w
    ensures forall y, x :: 0 <= y < h && 0 <= x < w ==>
              (grid[y][x] == Blank <==> IsWhite(Luma(PixelAt(data, w, h, x, y)), threshold))
    // every cell is the text cell of the pixel under it: blank, grey or [r, g, b]
    ensures forall y, x :: 0 <= y < h && 0 <= x < w ==>
              grid[y][x] == TextCell(PixelAt(data, w, h, x, y), threshold)
  {
    seq(h, (y: int) requires 0 <= y < h =>
      seq(w, (x: int) requires 0 <= x < w => TextCell(PixelAt(data, w, h, x, y), threshold)))
  }

  /** Three bytes of a binary frame, read back as a pixel. */
  function Triple(out: seq<Byte>, p: nat): Pixel
    requires 3 * p + 2 < |out|
  {
    Pixel(out[3 * p], out[3 * p + 1], out[3 * p + 2])
  }

  function BinaryPixel(px: Pixel, isMasked: bool, threshold: int): Pixel {
    if isMasked || IsWhite(Luma(px), threshold) then White else px
  }

  /** The binary triple for flat pixel index `q`, whose cell is `(q % w, q / w)`. */
  function BinaryAt(data: seq<Byte>, w: nat, q: nat, masked: set<(int, int)>, threshold: int): Pixel
    requires w > 0 && q < |data| / 4
  {
    BinaryPixel(At(data, q).px, (q % w, q / w) in masked, threshold)
  }

  /** The binary RGB frame: three bytes per cell, row-major; a masked cell or
      a white cell is (255, 255, 255), any other cell keeps its colour. */
  method BinaryRgbFrame(data: seq<Byte>, w: nat, h: nat, masked: set<(int, int)>, threshold: int)
    returns (out: seq<Byte>)
    requires |data| == 4 * (w * h)
    ensures |out| == 3 * (w * h)
    ensures forall y, x :: 0 <= y < h && 0 <= x < w ==>
              TripleAt(out, w, h, x, y)
              == (if (x, y) in masked || IsWhite(Luma(PixelAt(data, w, h, x, y)), threshold)
                  then White else PixelAt(data, w, h, x, y))
    ensures forall y, x :: 0 <= y < h && 0 <= x < w && (x, y) !in masked ==>
              TripleAt(out, w, h, x, y) == CellColor(TextCell(PixelAt(data, w, h, x, y), threshold))
  {
    out := [];
    if w == 0 {
      return;
    }
    var n := w * h;
    assert |data| / 4 == n;
    var p := 0;
    while p < n
      invariant 0 <= p <= n
      invariant |out| == 3 * p
      invariant forall q :: 0 <= q < p ==> Triple(out, q) == BinaryAt(data, w, q, masked, threshold)
    {
      var px := BinaryAt(data, w, p, masked, threshold);
      AppendTriple(out, px);
      out := out + [px.r, px.g, px.b];
      p := p + 1;
    }
    forall y, x | 0 <= y < h && 0 <= x < w
      ensures TripleAt(out, w, h, x, y) == BinaryPixel(PixelAt(data, w, h, x, y), (x, y) in masked, threshold)
    {
      GridIndex(x, y, w, h);
      assert Triple(out, y * w + x) == BinaryAt(data, w, y * w + x, masked, threshold);
    }
  }

  /** Appending one triple keeps the earlier ones and adds `px` after them. */
  lemma AppendTriple(out: seq<Byte>, px: Pixel)
    requires |out| % 3 == 0
    ensures var out' := out + [px.r, px.g, px.b];
            && Triple(out', |out| / 3) == px
            && forall q :: 0 <= q < |out| / 3 ==> Triple(out', q) == Triple(out, q)
  {
    var out' := out + [px.r, px.g, px.b];
    forall q | 0 <= q < |out| / 3
      ensures Triple(out', q) == Triple(out, q)
    {
      assert out'[3 * q] == out[3 * q] && out'[3 * q + 1] == out[3 * q + 1] && out'[3 * q + 2] == out[3 * q + 2];
    }
  }

  /** `parsePixel` on a captured cell: the glyph the player draws (the
      alphabet and threshold 240 of `getCharForBrightness`) and its colour. */
  function PaintCell(c: Cell, chars: string): (s: (Glyph, Pixel))
    requires |chars| >= 1
    ensures s.1 == CellColor(c)
    ensures c == Blank ==> s.0 == Char(' ')
    ensures c != Blank && |chars| >= 2 && !IsWhite(Luma(CellColor(c)), 240) ==>
              s.0.Char? && s.0.c in chars[..|chars| - 1]
  {
    match c
    case Blank => (Char(' '), White)
    case Gray(v) => (CharForBrightness(1000 * v, chars, 240), Pixel(v, v, v))
    case Rgb(r, g, b) => (CharForBrightness(Luma(Pixel(r, g, b)), chars, 240), Pixel(r, g, b))
  }

  /** Capturing a pixel as text and painting it back in the player draws the
      glyph and colour the converter drew with threshold 240 and no noise;
      a blank cell becomes a white space. */
  lemma PaintCapturedCell(p: Pixel, chars: string, u1: real, u2: real)
    requires |chars| >= 1
    ensures var s := ColorAsciiChar(p, Style(chars, 240, 0.0), u1, u2);
            PaintCell(TextCell(p, 240), chars)
            == (if s.ch == NoChar then (Char(' '), White) else (s.ch, p))
  {
    PlayerAgreesWithConverter(p, chars, u1, u2);
  }
}
