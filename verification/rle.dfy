/** The run-length codec of the text format: `rleEncodeFrame` in the
    exporter (app.js:711-729) and `isRleItem`, `rleDecodeFlat`,
    `unflattenFrame` in the player (player.js:38-68).

    Two cells are compared in the exporter through `JSON.stringify`; since
    the JSON form of a cell determines the cell (`CellJsonInjective`), that
    comparison is cell equality here. */
module Rle {
  import opened Base
  import opened Cells
  import opened JsonValue

  /** The JSON form of a captured cell: `""`, a number, or `[r, g, b]`. */
  function CellJson(c: Cell): Json {
    match c
    case Blank => JStr("")
    case Gray(v) => JNum(v as real)
    case Rgb(r, g, b) => JArr([JNum(r as real), JNum(g as real), JNum(b as real)])
  }

  lemma CellJsonInjective(c1: Cell, c2: Cell)
    ensures CellJson(c1) == CellJson(c2) <==> c1 == c2
  {
    if CellJson(c1) == CellJson(c2) {
      match c1
      case Blank =>
      case Gray(v) =>
      case Rgb(r, g, b) =>
        assert CellJson(c1).items[0] == CellJson(c2).items[0];
        assert CellJson(c1).items[1] == CellJson(c2).items[1];
        assert CellJson(c1).items[2] == CellJson(c2).items[2];
    }
  }

  /** An output token: a bare cell, or `[count, cell]`. */
  datatype Token = Lit(c: Cell) | Run(count: nat, c: Cell)

  function TokenJson(t: Token): Json {
    match t
    case Lit(c) => CellJson(c)
    case Run(n, c) => JArr([JNum(n as real), CellJson(c)])
  }

  function TokenCell(t: Token): Cell {
    t.c
  }

  /** `frame.flat()`: the rows of a grid, concatenated. */
  function Flatten<T>(grid: seq<seq<T>>): seq<T> {
    if |grid| == 0 then [] else grid[0] + Flatten(grid[1..])
  }

  /** Length of the run of cells equal to `s[i]` starting at `i`. */
  function RunLength(s: seq<Cell>, i: nat): (k: nat)
    requires i < |s|
    ensures 1 <= k <= |s| - i
    ensures forall j :: i <= j < i + k ==> s[j] == s[i]
    ensures i + k == |s| || s[i + k] != s[i]
    decreases |s| - i
  {
    if i + 1 < |s| && s[i + 1] == s[i] then 1 + RunLength(s, i + 1) else 1
  }

  /** The encoder loop from position `i` on. */
  function EncodeFrom(s: seq<Cell>, i: nat): (ts: seq<Token>)
    requires i <= |s|
    ensures i < |s| <==> |ts| > 0
    ensures |ts| > 0 ==> TokenCell(ts[0]) == s[i]
    decreases |s| - i
  {
    if i == |s| then []
    else
      var k := RunLength(s, i);
      var t := if k > 1 then Run(k, s[i]) else Lit(s[i]);
      [t] + EncodeFrom(s, i + k)
  }

  /** Runs have at least two cells, and no two neighbouring tokens carry
      equal cells: every run is maximal. */
  predicate Maximal(ts: seq<Token>) {
    && (forall j :: 0 <= j < |ts| && ts[j].Run? ==> ts[j].count >= 2)
    && (forall j :: 0 <= j < |ts| - 1 ==> TokenCell(ts[j]) != TokenCell(ts[j + 1]))
  }

  lemma {:induction false} EncodeFromMaximal(s: seq<Cell>, i: nat)
    requires i <= |s|
    ensures Maximal(EncodeFrom(s, i))
    decreases |s| - i
  {
    if i < |s| {
      var k := RunLength(s, i);
      var ts := EncodeFrom(s, i);
      var rest := EncodeFrom(s, i + k);
      EncodeFromMaximal(s, i + k);
      assert ts == [ts[0]] + rest;
      assert rest != [] ==> TokenCell(rest[0]) != TokenCell(ts[0]);
      forall j | 0 <= j < |ts| - 1
        ensures TokenCell(ts[j]) != TokenCell(ts[j + 1])
      {
        if j > 0 {
          assert ts[j] == rest[j - 1] && ts[j + 1] == rest[j];
        }
      }
    }
  }

  /** `rleEncodeFrame`. Runs have at least two cells, and no two neighbouring
      tokens carry equal cells: every run is maximal. */
  function RleEncode(frame: seq<seq<Cell>>): (ts: seq<Token>)
    ensures forall j :: 0 <= j < |ts| && ts[j].Run? ==> ts[j].count >= 2
    ensures forall j :: 0 <= j < |ts| - 1 ==> TokenCell(ts[j]) != TokenCell(ts[j + 1])
    ensures |ts| == 0 <==> |Flatten(frame)| == 0
  {
    EncodeFromMaximal(Flatten(frame), 0);
    EncodeFrom(Flatten(frame), 0)
  }

  /** The cells a token stands for. */
  function TokenCells(t: Token): seq<Cell> {
    match t
    case Lit(c) => [c]
    case Run(n, c) => Repeat(c, n)
  }

  /** Reference reading of a token sequence: each token by its cells. */
  function Expand(ts: seq<Token>): seq<Cell> {
    if |ts| == 0 then [] else TokenCells(ts[0]) + Expand(ts[1..])
  }

  lemma {:induction false} ExpandEncodeFrom(s: seq<Cell>, i: nat)
    requires i <= |s|
    ensures Expand(EncodeFrom(s, i)) == s[i..]
    decreases |s| - i
  {
    if i < |s| {
      ExpandEncodeFrom(s, i + RunLength(s, i));
      ExpandTail(s, i);
    }
  }

  /** The induction step: if the encoding after the first run expands to
      the rest of the cells, the whole encoding expands to all of them. */
  lemma ExpandTail(s: seq<Cell>, i: nat)
    requires i < |s|
    requires Expand(EncodeFrom(s, i + RunLength(s, i))) == s[i + RunLength(s, i)..]
    ensures Expand(EncodeFrom(s, i)) == s[i..]
  {
    ExpandStep(s, i);
    SliceSplit(s, i, i + RunLength(s, i));
  }

  /** One turn of the encoder loop: the first token stands for the run at
      `i`, and the rest is the encoding from the end of that run. */
  lemma ExpandStep(s: seq<Cell>, i: nat)
    requires i < |s|
    ensures Expand(EncodeFrom(s, i))
            == s[i..i + RunLength(s, i)] + Expand(EncodeFrom(s, i + RunLength(s, i)))
  {
    var k := RunLength(s, i);
    EncodeFromTail(s, i);
    RunCells(s, i);
    ExpandHead(EncodeFrom(s, i), s[i..i + k], EncodeFrom(s, i + k));
  }

  /** After its first token the encoder carries on from the end of the run. */
  lemma EncodeFromTail(s: seq<Cell>, i: nat)
    requires i < |s|
    ensures EncodeFrom(s, i)[1..] == EncodeFrom(s, i + RunLength(s, i))
  {
  }

  lemma ExpandHead(ts: seq<Token>, head: seq<Cell>, rest: seq<Token>)
    requires |ts| > 0 && TokenCells(ts[0]) == head && ts[1..] == rest
    ensures Expand(ts) == head + Expand(rest)
  {
  }

  /** The first token the encoder emits at `i` stands for the run at `i`. */
  lemma RunCells(s: seq<Cell>, i: nat)
    requires i < |s|
    ensures TokenCells(EncodeFrom(s, i)[0]) == s[i..i + RunLength(s, i)]
  {
    var k := RunLength(s, i);
    var cells := TokenCells(EncodeFrom(s, i)[0]);
    assert |cells| == k;
    forall j | 0 <= j < k
      ensures cells[j] == s[i + j]
    {
    }
  }

  /** Expanding the encoder's output gives back the flattened frame. */
  lemma ExpandRleEncode(frame: seq<seq<Cell>>)
    ensures Expand(RleEncode(frame)) == Flatten(frame)
  {
    ExpandEncodeFrom(Flatten(frame), 0);
  }

  // ----- the player's decoder, on parsed JSON -----

  /** `isRleItem`: a pair whose first element is a number above 1 and whose
      second is `""`, a number or an array. */
  predicate IsRleItem(item: Json) {
    && item.JArr?
    && |item.items| == 2
    && item.items[0].JNum?
    && item.items[0].n > 1.0
    && (item.items[1] == JStr("") || item.items[1].JNum? || item.items[1].JArr?)
  }

  /** No cell is mistaken for a run, and every run token is recognised. */
  lemma RleItemClassifiesTokens(t: Token)
    ensures IsRleItem(TokenJson(t)) <==> t.Run? && t.count >= 2
  {
  }

  /** How many times the decoder's `for (i = 0; i < count; i++)` loop runs. */
  function LoopCount(count: real): (k: nat)
    requires count > 1.0
    ensures count <= k as real < count + 1.0
  {
    Ceil(count)
  }

  /** What the decoder pushes for one item: `count` copies of the cell of a
      run item, the item itself otherwise. */
  function DecodeItem(item: Json): seq<Json> {
    if IsRleItem(item) then Repeat(item.items[1], LoopCount(item.items[0].n)) else [item]
  }

  /** `rleDecodeFlat`. */
  function RleDecodeFlat(encoded: seq<Json>): (decoded: seq<Json>)
    ensures |encoded| == 0 ==> decoded == []
  {
    if |encoded| == 0 then [] else DecodeItem(encoded[0]) + RleDecodeFlat(encoded[1..])
  }

  function MapJson<T>(f: T -> Json, s: seq<T>): (r: seq<Json>)
    ensures |r| == |s|
    ensures forall i :: 0 <= i < |s| ==> r[i] == f(s[i])
  {
    if |s| == 0 then [] else [f(s[0])] + MapJson(f, s[1..])
  }

  lemma MapJsonAppend<T>(f: T -> Json, a: seq<T>, b: seq<T>)
    ensures MapJson(f, a + b) == MapJson(f, a) + MapJson(f, b)
  {
  }

  lemma MapJsonRepeat<T>(f: T -> Json, x: T, n: nat)
    ensures MapJson(f, Repeat(x, n)) == Repeat(f(x), n)
  {
  }

  /** One token decodes to the JSON forms of the cells it stands for. */
  lemma DecodeToken(t: Token)
    requires t.Run? ==> t.count >= 2
    ensures DecodeItem(TokenJson(t)) == MapJson(CellJson, TokenCells(t))
  {
    RleItemClassifiesTokens(t);
    if t.Run? {
      assert LoopCount(t.count as real) == t.count;
      MapJsonRepeat(CellJson, t.c, t.count);
    }
  }

  lemma {:induction false} DecodeTokens(ts: seq<Token>)
    requires forall j :: 0 <= j < |ts| && ts[j].Run? ==> ts[j].count >= 2
    ensures RleDecodeFlat(MapJson(TokenJson, ts)) == MapJson(CellJson, Expand(ts))
  {
    if |ts| > 0 {
      var js := MapJson(TokenJson, ts);
      assert js[1..] == MapJson(TokenJson, ts[1..]);
      DecodeTokens(ts[1..]);
      DecodeToken(ts[0]);
      assert RleDecodeFlat(js) == DecodeItem(TokenJson(ts[0])) + RleDecodeFlat(js[1..]);
      MapJsonAppend(CellJson, TokenCells(ts[0]), Expand(ts[1..]));
    }
  }

  /** Decoding the exporter's tokens gives back the JSON form of every cell
      of the flattened frame. */
  lemma DecodeEncode(frame: seq<seq<Cell>>)
    ensures RleDecodeFlat(MapJson(TokenJson, RleEncode(frame))) == MapJson(CellJson, Flatten(frame))
  {
    DecodeTokens(RleEncode(frame));
    ExpandRleEncode(frame);
  }

  /** `[5, 5, 5, 7, 5]` encodes to `[[3, 5], 7, 5]` and decodes back. */
  lemma RleExample()
    ensures var s := [Gray(5), Gray(5), Gray(5), Gray(7), Gray(5)];
            && RleEncode([s]) == [Run(3, Gray(5)), Lit(Gray(7)), Lit(Gray(5))]
            && RleDecodeFlat(MapJson(TokenJson, RleEncode([s]))) == MapJson(CellJson, s)
  {
    var s := [Gray(5), Gray(5), Gray(5), Gray(7), Gray(5)];
    assert Flatten([s]) == s;
    assert RunLength(s, 4) == 1;
    assert RunLength(s, 3) == 1;
    assert RunLength(s, 0) == 3;
    assert EncodeFrom(s, 5) == [];
    assert EncodeFrom(s, 4) == [Lit(Gray(5))];
    assert EncodeFrom(s, 3) == [Lit(Gray(7))] + [Lit(Gray(5))];
    DecodeEncode([s]);
  }

  /** Unambiguity rests on the cell shapes: a two-element pair led by a
      number above 1 is always read as a run, never as itself. */
  lemma PairIsReadAsRun()
    ensures RleDecodeFlat([JArr([JNum(2.0), JNum(7.0)])]) == [JNum(7.0), JNum(7.0)]
  {
    assert LoopCount(2.0) == 2;
  }

  // ----- unflattening -----

  /** `ToIntegerOrInfinity` of a number; `None` is `NaN`, which becomes 0. */
  function ToInteger(x: Option<real>): int {
    if x.None? then 0 else Trunc(x.value)
  }

  /** `Array.prototype.slice(start, end)` with its relative-index rules. */
  function Slice<T>(s: seq<T>, start: Option<real>, end: Option<real>): (r: seq<T>)
    ensures var a, b := ToInteger(start), ToInteger(end);
            0 <= a <= b <= |s| ==> r == s[a..b]
  {
    var a := ToInteger(start);
    var b := ToInteger(end);
    var from := if a < 0 then Max(|s| + a, 0) else Min(a, |s|);
    var to := if b < 0 then Max(|s| + b, 0) else Min(b, |s|);
    if from < to then s[from..to] else []
  }

  /** `y * width` where `width` may be `NaN`. */
  function Times(y: nat, width: Option<real>): Option<real> {
    if width.None? then None else Some(y as real * width.value)
  }

  /** Number of rows `unflattenFrame` makes: the count of `y = 0, 1, ...`
      with `y < height`; `NaN` compares false. */
  function RowCount(height: Option<real>): (n: nat)
    ensures height.Some? && height.value > 0.0 ==> (n - 1) as real < height.value <= n as real
    ensures height.None? || height.value <= 0.0 ==> n == 0
  {
    if height.None? || height.value <= 0.0 then 0 else Ceil(height.value)
  }

  /** Row `y` of `unflattenFrame`: `flat.slice(y * width, (y + 1) * width)`. */
  function RowAt<T>(flat: seq<T>, width: Option<real>, y: nat): seq<T> {
    Slice(flat, Times(y, width), Times(y + 1, width))
  }

  /** `unflattenFrame(flat, width, height)`. */
  function Unflatten<T>(flat: seq<T>, width: Option<real>, height: Option<real>): (rows: seq<seq<T>>)
    ensures |rows| == RowCount(height)
    ensures forall y :: 0 <= y < |rows| ==> rows[y] == RowAt(flat, width, y)
  {
    seq(RowCount(height), (y: int) requires 0 <= y => RowAt(flat, width, y))
  }

  /** A grid is `h` rows of `w` cells. */
  predicate IsGrid<T>(grid: seq<seq<T>>, w: nat, h: nat) {
    |grid| == h && forall y :: 0 <= y < h ==> |grid[y]| == w
  }

  lemma SliceSplit<T>(s: seq<T>, i: nat, j: nat)
    requires i <= j <= |s|
    ensures s[i..] == s[i..j] + s[j..]
  {
  }

  lemma SliceRight<T>(a: seq<T>, b: seq<T>, i: nat, j: nat)
    requires |a| <= i <= j <= |a| + |b|
    ensures (a + b)[i..j] == b[i - |a|..j - |a|]
  {
  }

  /** Start of row `y` in a flattened grid of width `w`. */
  function RowStart(y: nat, w: nat): nat {
    if y == 0 then 0 else RowStart(y - 1, w) + w
  }

  /** The start of row `y` is `y * w`. */
  lemma {:induction false} RowStartMul(y: nat, w: nat)
    ensures RowStart(y, w) == y * w
  {
    if y > 0 {
      RowStartMul(y - 1, w);
      assert y * w == (y - 1) * w + w;
    }
  }

  /** Row `y` of the grid sits at `[y * w, y * w + w)` of the flattened grid. */
  lemma {:induction false} FlattenRow<T>(grid: seq<seq<T>>, w: nat, h: nat, y: nat)
    requires IsGrid(grid, w, h) && y < h
    ensures RowStart(y, w) + w <= |Flatten(grid)|
    ensures Flatten(grid)[RowStart(y, w)..RowStart(y, w) + w] == grid[y]
    decreases h
  {
    var rest := grid[1..];
    assert IsGrid(rest, w, h - 1);
    assert Flatten(grid) == grid[0] + Flatten(rest);
    if y > 0 {
      FlattenRow(rest, w, h - 1, y - 1);
      SliceRight(grid[0], Flatten(rest), RowStart(y, w), RowStart(y, w) + w);
    }
  }

  /** Cell `x` of row `y` sits at `y * w + x` of the flattened grid. */
  lemma FlattenAt<T>(grid: seq<seq<T>>, w: nat, h: nat, y: nat, x: nat)
    requires IsGrid(grid, w, h) && y < h && x < w
    ensures RowStart(y, w) + x < |Flatten(grid)|
    ensures Flatten(grid)[RowStart(y, w) + x] == grid[y][x]
  {
    var start := RowStart(y, w);
    FlattenRow(grid, w, h, y);
    assert Flatten(grid)[start..start + w][x] == grid[y][x];
  }

  /** Appending a row to the grid appends it to the flattening. */
  lemma {:induction false} FlattenSnoc<T>(grid: seq<seq<T>>, row: seq<T>)
    ensures Flatten(grid + [row]) == Flatten(grid) + row
  {
    if |grid| > 0 {
      assert (grid + [row])[1..] == grid[1..] + [row];
      FlattenSnoc(grid[1..], row);
    }
  }

  lemma FlattenLength<T>(grid: seq<seq<T>>, w: nat, h: nat)
    requires IsGrid(grid, w, h)
    ensures |Flatten(grid)| == h * w
  {
    FlattenRows(grid, w, h);
    RowStartMul(h, w);
  }

  lemma {:induction false} FlattenRows<T>(grid: seq<seq<T>>, w: nat, h: nat)
    requires IsGrid(grid, w, h)
    ensures |Flatten(grid)| == RowStart(h, w)
    decreases h
  {
    if h > 0 {
      assert IsGrid(grid[1..], w, h - 1);
      FlattenRows(grid[1..], w, h - 1);
    }
  }

  /** Unflattening the flattened `h` by `w` grid with the grid's own
      dimensions gives back the grid. */
  lemma UnflattenFlatten<T>(grid: seq<seq<T>>, w: nat, h: nat)
    requires IsGrid(grid, w, h)
    ensures Unflatten(Flatten(grid), Some(w as real), Some(h as real)) == grid
  {
    var rows := Unflatten(Flatten(grid), Some(w as real), Some(h as real));
    assert |rows| == h;
    forall y | 0 <= y < h
      ensures rows[y] == grid[y]
    {
      FlattenRow(grid, w, h, y);
      RowOfGrid(Flatten(grid), w, y);
    }
  }

  /** With an integer width, row `y` is the plain slice `[y * w, y * w + w)`. */
  lemma RowOfGrid<T>(flat: seq<T>, w: nat, y: nat)
    requires RowStart(y, w) + w <= |flat|
    ensures RowAt(flat, Some(w as real), y) == flat[RowStart(y, w)..RowStart(y, w) + w]
  {
    var a := RowStart(y, w);
    TimesInt(y, w);
    TimesInt(y + 1, w);
    assert RowStart(y + 1, w) == a + w;
    SliceInts(flat, a, a + w);
  }

  lemma TimesInt(y: nat, w: nat)
    ensures Times(y, Some(w as real)) == Some(RowStart(y, w) as real)
  {
    IntToRealMul(y, w);
  }

  lemma SliceInts<T>(s: seq<T>, a: nat, b: nat)
    requires a <= b <= |s|
    ensures Slice(s, Some(a as real), Some(b as real)) == s[a..b]
  {
    assert Trunc(a as real) == a;
    assert Trunc(b as real) == b;
  }
}
