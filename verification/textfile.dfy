/** The JSON-lines text format: the exporter `downloadTextFile`
    (app.js:731-747), and the player's `parseJsonl` (player.js:70-98) and
    `validateFormat` (player.js:131-175). `JSON.parse` and `JSON.stringify`
    are parameters; the gzip layer around the file is left out. */
module TextFile {
  import opened Base
  import opened Cells
  import opened JsonValue
  import opened Rle

  // ----- strings -----

  /** The characters `String.prototype.trim` removes: white space and line
      terminators of ECMAScript. */
  predicate IsWs(c: char) {
    || c == '\t' || c == '\n' || c == '\U{B}' || c == '\U{C}' || c == '\r' || c == ' '
    || c == '\U{A0}' || c == '\U{1680}' || ('\U{2000}' <= c <= '\U{200A}')
    || c == '\U{2028}' || c == '\U{2029}' || c == '\U{202F}' || c == '\U{205F}'
    || c == '\U{3000}' || c == '\U{FEFF}'
  }

  function TrimStart(s: string): (r: string)
    ensures |r| <= |s| && r == s[|s| - |r|..]
    ensures forall k :: 0 <= k < |s| - |r| ==> IsWs(s[k])
    ensures |r| > 0 ==> !IsWs(r[0])
  {
    if |s| > 0 && IsWs(s[0]) then TrimStart(s[1..]) else s
  }

  function TrimEnd(s: string): (r: string)
    ensures |r| <= |s| && r == s[..|r|]
    ensures forall k :: |r| <= k < |s| ==> IsWs(s[k])
    ensures |r| > 0 ==> !IsWs(r[|r| - 1])
  {
    if |s| > 0 && IsWs(s[|s| - 1]) then TrimEnd(s[..|s| - 1]) else s
  }

  /** `s.trim()`. */
  function Trim(s: string): (r: string)
    ensures |r| > 0 ==> !IsWs(r[0]) && !IsWs(r[|r| - 1])
  {
    TrimEnd(TrimStart(s))
  }

  /** A line is skipped exactly when it is all white space. */
  lemma TrimEmpty(s: string)
    ensures Trim(s) == "" <==> forall k :: 0 <= k < |s| ==> IsWs(s[k])
  {
    var t := TrimStart(s);
    TrimStartEmpty(s);
    TrimEndEmpty(t);
  }

  lemma {:induction false} TrimStartEmpty(s: string)
    ensures TrimStart(s) == "" <==> forall k :: 0 <= k < |s| ==> IsWs(s[k])
  {
    if |s| > 0 && IsWs(s[0]) {
      TrimStartEmpty(s[1..]);
      assert forall k :: 1 <= k < |s| ==> s[k] == s[1..][k - 1];
    }
  }

  lemma {:induction false} TrimEndEmpty(s: string)
    ensures TrimEnd(s) == "" <==> forall k :: 0 <= k < |s| ==> IsWs(s[k])
  {
    if |s| > 0 && IsWs(s[|s| - 1]) {
      TrimEndEmpty(s[..|s| - 1]);
      assert forall k :: 0 <= k < |s| - 1 ==> s[k] == s[..|s| - 1][k];
    }
  }

  /** A string that starts and ends with a non-space character is its own trim. */
  lemma TrimUnchanged(s: string)
    requires |s| > 0 && !IsWs(s[0]) && !IsWs(s[|s| - 1])
    ensures Trim(s) == s
  {
  }

  /** `s.split('\n')`. */
  function Split(s: string): (parts: seq<string>)
    ensures |parts| >= 1
    ensures forall i :: 0 <= i < |parts| ==> '\n' !in parts[i]
  {
    if |s| == 0 then [""]
    else
      var rest := Split(s[1..]);
      if s[0] == '\n' then [""] + rest else [[s[0]] + rest[0]] + rest[1..]
  }

  /** `lines.join('\n')`. */
  function Join(lines: seq<string>): string
    requires |lines| >= 1
  {
    if |lines| == 1 then lines[0] else lines[0] + "\n" + Join(lines[1..])
  }

  lemma {:induction false} JoinSplit(s: string)
    ensures Join(Split(s)) == s
  {
    if |s| > 0 {
      JoinSplit(s[1..]);
      var rest := Split(s[1..]);
      if s[0] == '\n' {
        assert s == "\n" + s[1..];
      } else if |rest| == 1 {
        assert s == [s[0]] + s[1..];
      } else {
        assert rest == [rest[0]] + rest[1..];
        assert Join(rest) == rest[0] + "\n" + Join(rest[1..]);
        assert s == [s[0]] + s[1..];
      }
    }
  }

  lemma {:induction false} SplitJoin(lines: seq<string>)
    requires |lines| >= 1
    requires forall i :: 0 <= i < |lines| ==> '\n' !in lines[i]
    ensures Split(Join(lines)) == lines
    decreases |lines|, |lines[0]|
  {
    var line := lines[0];
    if |line| > 0 {
      var shorter := [line[1..]] + lines[1..];
      SplitJoin(shorter);
      assert Join(lines) == [line[0]] + Join(shorter) by {
        if |lines| > 1 {
          assert shorter[1..] == lines[1..];
        }
      }
      assert Join(lines)[1..] == Join(shorter);
      assert [line[0]] + line[1..] == line;
    } else if |lines| > 1 {
      SplitJoin(lines[1..]);
      assert Join(lines) == "\n" + Join(lines[1..]);
      assert Join(lines)[1..] == Join(lines[1..]);
    }
  }

  lemma JoinFirst(lines: seq<string>)
    requires |lines| >= 1 && |lines[0]| > 0
    ensures |Join(lines)| > 0 && Join(lines)[0] == lines[0][0]
  {
  }

  lemma {:induction false} JoinLast(lines: seq<string>)
    requires |lines| >= 1 && |lines[|lines| - 1]| > 0
    ensures |Join(lines)| > 0
    ensures Join(lines)[|Join(lines)| - 1] == lines[|lines| - 1][|lines[|lines| - 1]| - 1]
  {
    if |lines| > 1 {
      JoinLast(lines[1..]);
    }
  }

  // ----- JSON numbers -----

  /** `Number(v)` for the values a dimension can hold; `None` is `NaN`. */
  function ToNumber(v: Option<Json>): (r: Option<real>)
    ensures v.Some? && v.value.JNum? ==> r == Some(v.value.n)
    ensures v.None? ==> r.None?
  {
    match v
    case None => None
    case Some(JNum(n)) => Some(n)
    case Some(JNull) => Some(0.0)
    case Some(JBool(b)) => Some(if b then 1.0 else 0.0)
    case Some(_) => None
  }

  // ----- parseJsonl -----

  /** `for (const item of row)` inside `rleDecodeFlat`: arrays yield their
      elements, strings their characters; anything else is not iterable. */
  function DecodeRow(row: Json): (r: Result<Json, string>)
    ensures row.JArr? ==> r == Ok(JArr(RleDecodeFlat(row.items)))
    ensures !row.JArr? && !row.JStr? ==> r.Err?
  {
    match row
    case JArr(items) => Ok(JArr(RleDecodeFlat(items)))
    case JStr(s) => Ok(JArr(RleDecodeFlat(seq(|s|, (i: int) requires 0 <= i < |s| => JStr([s[i]])))))
    case _ => Err("TypeError: not iterable")
  }

  function DecodeRows(rows: seq<Json>): (r: Result<seq<Json>, string>)
    ensures r.Ok? ==> |r.value| == |rows|
    ensures (forall i :: 0 <= i < |rows| ==> rows[i].JArr?) ==> r.Ok?
  {
    if |rows| == 0 then Ok([])
    else
      var first :- DecodeRow(rows[0]);
      var rest :- DecodeRows(rows[1..]);
      Ok([first] + rest)
  }

  /** `frame.length > 0 && !Array.isArray(frame[0]?.[0])`: the frame is one
      flat token list rather than a list of rows. */
  predicate IsFlatFrame(frame: Json) {
    frame.JArr? && |frame.items| > 0 && !IsArray(First(frame.items[0]))
  }

  /** Rows as JSON arrays. */
  function RowsJson(rows: seq<seq<Json>>): (r: seq<Json>)
    ensures |r| == |rows|
    ensures forall y :: 0 <= y < |rows| ==> r[y] == JArr(rows[y])
  {
    seq(|rows|, (y: int) requires 0 <= y < |rows| => JArr(rows[y]))
  }

  /** The RLE branch of `parseJsonl` for one parsed frame. */
  function DecodeFrame(frame: Json, width: Option<real>, height: Option<real>): (r: Result<Json, string>)
    ensures IsFlatFrame(frame) ==>
              r == Ok(JArr(RowsJson(Unflatten(RleDecodeFlat(frame.items), width, height))))
    ensures !IsFlatFrame(frame) && !frame.JArr? ==> r.Err?
  {
    if IsFlatFrame(frame) then
      Ok(JArr(RowsJson(Unflatten(RleDecodeFlat(frame.items), width, height))))
    else if frame.JArr? then
      var rows :- DecodeRows(frame.items);
      Ok(JArr(rows))
    else
      Err("TypeError: frame.map is not a function")
  }

  /** Number of frame lines that are not blank. */
  function CountNonBlank(lines: seq<string>): nat {
    if |lines| == 0 then 0
    else (if Trim(lines[0]) == "" then 0 else 1) + CountNonBlank(lines[1..])
  }

  /** The frame loop of `parseJsonl`: blank lines are skipped, every other
      line is parsed and, in an RLE file, decoded. */
  function ParseFrames(lines: seq<string>, parse: string -> Result<Json, string>, useRle: bool,
                       width: Option<real>, height: Option<real>): (r: Result<seq<Json>, string>)
    ensures r.Ok? ==> |r.value| == CountNonBlank(lines)
  {
    if |lines| == 0 then Ok([])
    else if Trim(lines[0]) == "" then ParseFrames(lines[1..], parse, useRle, width, height)
    else
      var frame :- parse(lines[0]);
      var decoded :- if useRle then DecodeFrame(frame, width, height) else Ok(frame);
      var rest :- ParseFrames(lines[1..], parse, useRle, width, height);
      Ok([decoded] + rest)
  }

  /** Reference reading of a plain file: the parsed non-blank lines, in order. */
  function ParsedNonBlank(lines: seq<string>, parse: string -> Result<Json, string>): seq<Json>
    requires forall i :: 0 <= i < |lines| && Trim(lines[i]) != "" ==> parse(lines[i]).Ok?
  {
    if |lines| == 0 then []
    else
      var rest := ParsedNonBlank(lines[1..], parse);
      if Trim(lines[0]) == "" then rest else [parse(lines[0]).value] + rest
  }

  /** A file that is not run-length encoded keeps every parsed frame as it is. */
  lemma {:induction false} ParseFramesPlain(lines: seq<string>, parse: string -> Result<Json, string>,
                                            width: Option<real>, height: Option<real>)
    requires forall i :: 0 <= i < |lines| && Trim(lines[i]) != "" ==> parse(lines[i]).Ok?
    ensures ParseFrames(lines, parse, false, width, height) == Ok(ParsedNonBlank(lines, parse))
  {
    if |lines| > 0 {
      ParseFramesPlain(lines[1..], parse, width, height);
    }
  }

  /** `parseJsonl`: the metadata line, then the frames. */
  function ParseJsonl(text: string, parse: string -> Result<Json, string>): (r: Result<(Json, seq<Json>), string>)
    ensures |Split(Trim(text))| < 2 ==> r == Err("JSONL file must have at least metadata and one frame")
    ensures r.Ok? ==> |r.value.1| == CountNonBlank(Split(Trim(text))[1..])
  {
    var lines := Split(Trim(text));
    if |lines| < 2 then Err("JSONL file must have at least metadata and one frame")
    else
      var metadata :- parse(lines[0]);
      if metadata == JNull then Err("TypeError: cannot read properties of null")
      else
        var useRle := Get(metadata, "rle") == Some(JBool(true));
        var width := ToNumber(Get(metadata, "width"));
        var height := ToNumber(Get(metadata, "height"));
        var frames :- ParseFrames(lines[1..], parse, useRle, width, height);
        Ok((metadata, frames))
  }

  /** `parseJsonl` succeeds once the metadata line and the frame loop do. */
  lemma ParseJsonlOk(text: string, parse: string -> Result<Json, string>, metadata: Json, frames: seq<Json>)
    requires var lines := Split(Trim(text));
             && |lines| >= 2
             && parse(lines[0]) == Ok(metadata) && metadata != JNull
             && ParseFrames(lines[1..], parse, Get(metadata, "rle") == Some(JBool(true)),
                            ToNumber(Get(metadata, "width")), ToNumber(Get(metadata, "height"))) == Ok(frames)
    ensures ParseJsonl(text, parse) == Ok((metadata, frames))
  {
  }

  // ----- validateFormat -----

  datatype FormatError =
    | InvalidMetadata
    | InvalidFps
    | InvalidWidth
    | InvalidHeight
    | InvalidFrameCount
    | CountMismatch(expected: real, got: nat)
    | InvalidFrameStructure

  predicate IsPositive(v: Option<Json>) {
    IsNumber(v) && v.value.n > 0.0
  }

  /** `validateFormat` on the `{metadata, frames}` object `parseJsonl`
      returns (so the two checks on `data` itself never fire). */
  function ValidateFormat(metadata: Json, frames: seq<Json>): Option<FormatError> {
    if !(metadata.JObj? || metadata.JArr?) then Some(InvalidMetadata)
    else if !IsPositive(Get(metadata, "fps")) then Some(InvalidFps)
    else if !IsPositive(Get(metadata, "width")) then Some(InvalidWidth)
    else if !IsPositive(Get(metadata, "height")) then Some(InvalidHeight)
    else if !IsPositive(Get(metadata, "frameCount")) then Some(InvalidFrameCount)
    else if |frames| as real != Get(metadata, "frameCount").value.n then
      Some(CountMismatch(Get(metadata, "frameCount").value.n, |frames|))
    else if |frames| > 0 && !frames[0].JArr? then Some(InvalidFrameStructure)
    else None
  }

  /** What an accepted file looks like: an object whose fps, width, height
      and frameCount are positive numbers, `frameCount` frames, the first a
      JSON array. */
  predicate WellFormed(metadata: Json, frames: seq<Json>) {
    && metadata.JObj?
    && (forall key :: key in ["fps", "width", "height", "frameCount"] ==>
          key in metadata.fields && metadata.fields[key].JNum? && metadata.fields[key].n > 0.0)
    && |frames| as real == metadata.fields["frameCount"].n
    && |frames| > 0
    && frames[0].JArr?
  }

  lemma ValidateFormatAccepts(metadata: Json, frames: seq<Json>)
    ensures ValidateFormat(metadata, frames) == None <==> WellFormed(metadata, frames)
  {
    var keys := ["fps", "width", "height", "frameCount"];
    assert keys[0] in keys && keys[1] in keys && keys[2] in keys && keys[3] in keys;
    if ValidateFormat(metadata, frames) == None {
      assert metadata.JObj?;
      forall key | key in keys
        ensures key in metadata.fields && metadata.fields[key].JNum? && metadata.fields[key].n > 0.0
      {
      }
    }
  }

  // ----- the exporter -----

  /** The metadata line of the text export. */
  function TextMetadata(fps: real, width: nat, height: nat, frameCount: nat, duration: real): Json {
    JObj(map[
      "fps" := JNum(fps), "width" := JNum(width as real), "height" := JNum(height as real),
      "frameCount" := JNum(frameCount as real), "duration" := JNum(duration), "rle" := JBool(true)])
  }

  /** The fields of the metadata line, as the player reads them back. */
  lemma TextMetadataFields(fps: real, width: nat, height: nat, frameCount: nat, duration: real)
    ensures var m := TextMetadata(fps, width, height, frameCount, duration);
            && Get(m, "rle") == Some(JBool(true))
            && Get(m, "fps") == Some(JNum(fps))
            && Get(m, "width") == Some(JNum(width as real))
            && Get(m, "height") == Some(JNum(height as real))
            && Get(m, "frameCount") == Some(JNum(frameCount as real))
  {
    var m := TextMetadata(fps, width, height, frameCount, duration).fields;
    assert "rle"[0] != "fps"[0];
    assert |"fps"| == 3 && |"width"| == 5 && |"height"| == 6 && |"duration"| == 8 && |"frameCount"| == 10;
  }

  /** One exported frame: the JSON array of its RLE tokens. */
  function FrameLine(frame: seq<seq<Cell>>): Json {
    JArr(MapJson(TokenJson, RleEncode(frame)))
  }

  function FrameLines(frames: seq<seq<seq<Cell>>>, stringify: Json -> string): (lines: seq<string>)
    ensures |lines| == |frames|
    ensures forall i :: 0 <= i < |frames| ==> lines[i] == stringify(FrameLine(frames[i]))
  {
    seq(|frames|, (i: int) requires 0 <= i < |frames| => stringify(FrameLine(frames[i])))
  }

  /** `downloadTextFile` before compression: the metadata line and one line
      per frame, joined with newlines. */
  function TextExport(fps: real, width: nat, height: nat, duration: real,
                      frames: seq<seq<seq<Cell>>>, stringify: Json -> string): string {
    Join([stringify(TextMetadata(fps, width, height, |frames|, duration))] + FrameLines(frames, stringify))
  }

  /** The JSON the player holds for a decoded frame: rows of cell values. */
  function GridJson(frame: seq<seq<Cell>>): (g: seq<seq<Json>>)
    ensures |g| == |frame|
    ensures forall y :: 0 <= y < |frame| ==> g[y] == MapJson(CellJson, frame[y])
  {
    seq(|frame|, (y: int) requires 0 <= y < |frame| => MapJson(CellJson, frame[y]))
  }

  lemma {:induction false} FlattenGridJson(frame: seq<seq<Cell>>)
    ensures Flatten(GridJson(frame)) == MapJson(CellJson, Flatten(frame))
  {
    if |frame| > 0 {
      FlattenGridJson(frame[1..]);
      assert GridJson(frame)[1..] == GridJson(frame[1..]);
      MapJsonAppend(CellJson, frame[0], Flatten(frame[1..]));
    }
  }

  /** The first token of a frame is never an array led by an array, so the
      player always takes the flat-frame path for exported frames. */
  lemma TokenNotNested(t: Token)
    ensures !IsArray(First(TokenJson(t)))
  {
  }

  /** Decoding one exported frame of `h` rows of `w` cells gives its rows back. */
  lemma DecodeExportedFrame(frame: seq<seq<Cell>>, w: nat, h: nat)
    requires IsGrid(frame, w, h) && w > 0 && h > 0
    ensures DecodeFrame(FrameLine(frame), Some(w as real), Some(h as real))
            == Ok(JArr(RowsJson(GridJson(frame))))
  {
    FlattenRow(frame, w, h, 0);
    assert |Flatten(frame)| > 0;
    var ts := RleEncode(frame);
    TokenNotNested(ts[0]);
    assert IsFlatFrame(FrameLine(frame));
    DecodeEncode(frame);
    FlattenGridJson(frame);
    assert IsGrid(GridJson(frame), w, h);
    UnflattenFlatten(GridJson(frame), w, h);
  }

  /** What `JSON.stringify` guarantees and the round trip needs: the text
      parses back to the value, holds no raw newline, and neither starts nor
      ends with white space. */
  predicate StringifyFits(parse: string -> Result<Json, string>, stringify: Json -> string, j: Json) {
    var s := stringify(j);
    && parse(s) == Ok(j)
    && '\n' !in s
    && |s| > 0 && !IsWs(s[0]) && !IsWs(s[|s| - 1])
  }

  /** The frames the player holds after loading exported frames. */
  function LoadedFrames(frames: seq<seq<seq<Cell>>>): (r: seq<Json>)
    ensures |r| == |frames|
    ensures forall i :: 0 <= i < |frames| ==> r[i] == JArr(RowsJson(GridJson(frames[i])))
  {
    if |frames| == 0 then [] else [JArr(RowsJson(GridJson(frames[0])))] + LoadedFrames(frames[1..])
  }

  /** Frames are `h` rows of `w` cells and their lines stringify faithfully. */
  predicate ExportableFrames(frames: seq<seq<seq<Cell>>>, w: nat, h: nat,
                             parse: string -> Result<Json, string>, stringify: Json -> string) {
    forall i :: 0 <= i < |frames| ==>
      IsGrid(frames[i], w, h) && StringifyFits(parse, stringify, FrameLine(frames[i]))
  }

  /** One exported frame line is not blank and parses and decodes to its frame. */
  lemma ParseExportedLine(frame: seq<seq<Cell>>, w: nat, h: nat,
                          parse: string -> Result<Json, string>, stringify: Json -> string)
    requires w > 0 && h > 0 && IsGrid(frame, w, h)
    requires StringifyFits(parse, stringify, FrameLine(frame))
    ensures Trim(stringify(FrameLine(frame))) != ""
    ensures parse(stringify(FrameLine(frame))) == Ok(FrameLine(frame))
    ensures DecodeFrame(FrameLine(frame), Some(w as real), Some(h as real))
            == Ok(JArr(RowsJson(GridJson(frame))))
  {
    TrimUnchanged(stringify(FrameLine(frame)));
    DecodeExportedFrame(frame, w, h);
  }

  lemma {:induction false} ParseExportedFrames(frames: seq<seq<seq<Cell>>>, w: nat, h: nat,
                                               parse: string -> Result<Json, string>, stringify: Json -> string)
    requires w > 0 && h > 0
    requires ExportableFrames(frames, w, h, parse, stringify)
    ensures ParseFrames(FrameLines(frames, stringify), parse, true, Some(w as real), Some(h as real))
            == Ok(LoadedFrames(frames))
  {
    if |frames| > 0 {
      var lines := FrameLines(frames, stringify);
      ParseExportedLine(frames[0], w, h, parse, stringify);
      assert FrameLines(frames[1..], stringify) == lines[1..];
      assert ExportableFrames(frames[1..], w, h, parse, stringify) by {
        forall i | 0 <= i < |frames| - 1
          ensures IsGrid(frames[1..][i], w, h) && StringifyFits(parse, stringify, FrameLine(frames[1..][i]))
        {
          assert frames[1..][i] == frames[i + 1];
        }
      }
      ParseExportedFrames(frames[1..], w, h, parse, stringify);
    }
  }

  /** The text file splits back into its lines. */
  lemma ExportedLines(fps: real, w: nat, h: nat, duration: real, frames: seq<seq<seq<Cell>>>,
                      parse: string -> Result<Json, string>, stringify: Json -> string)
    requires |frames| > 0
    requires StringifyFits(parse, stringify, TextMetadata(fps, w, h, |frames|, duration))
    requires ExportableFrames(frames, w, h, parse, stringify)
    ensures var lines := [stringify(TextMetadata(fps, w, h, |frames|, duration))] + FrameLines(frames, stringify);
            Split(Trim(TextExport(fps, w, h, duration, frames, stringify))) == lines
  {
    var meta := TextMetadata(fps, w, h, |frames|, duration);
    var lines := [stringify(meta)] + FrameLines(frames, stringify);
    var text := Join(lines);
    var n := |frames|;
    assert StringifyFits(parse, stringify, FrameLine(frames[n - 1]));
    assert lines[|lines| - 1] == stringify(FrameLine(frames[n - 1]));
    JoinFirst(lines);
    JoinLast(lines);
    TrimUnchanged(text);
    forall i | 0 <= i < |lines|
      ensures '\n' !in lines[i]
    {
      if i > 0 {
        assert StringifyFits(parse, stringify, FrameLine(frames[i - 1]));
      }
    }
    SplitJoin(lines);
  }

  /** Exporting frames of `h` rows of `w` cells as text and loading the text
      in the player gives back the metadata and every frame's cells, and the
      result passes `validateFormat` whenever the fps is positive. */
  lemma ExportThenLoad(fps: real, w: nat, h: nat, duration: real, frames: seq<seq<seq<Cell>>>,
                       parse: string -> Result<Json, string>, stringify: Json -> string)
    requires w > 0 && h > 0 && |frames| > 0
    requires StringifyFits(parse, stringify, TextMetadata(fps, w, h, |frames|, duration))
    requires ExportableFrames(frames, w, h, parse, stringify)
    ensures ParseJsonl(TextExport(fps, w, h, duration, frames, stringify), parse)
            == Ok((TextMetadata(fps, w, h, |frames|, duration), LoadedFrames(frames)))
    ensures fps > 0.0 ==> ValidateFormat(TextMetadata(fps, w, h, |frames|, duration), LoadedFrames(frames)) == None
  {
    LoadExportedText(fps, w, h, duration, frames, parse, stringify);
    if fps > 0.0 {
      var meta := TextMetadata(fps, w, h, |frames|, duration);
      MetadataWellFormed(fps, w, h, duration, LoadedFrames(frames));
      ValidateFormatAccepts(meta, LoadedFrames(frames));
    }
  }

  /** The parsing half of `ExportThenLoad`. */
  lemma LoadExportedText(fps: real, w: nat, h: nat, duration: real, frames: seq<seq<seq<Cell>>>,
                         parse: string -> Result<Json, string>, stringify: Json -> string)
    requires w > 0 && h > 0 && |frames| > 0
    requires StringifyFits(parse, stringify, TextMetadata(fps, w, h, |frames|, duration))
    requires ExportableFrames(frames, w, h, parse, stringify)
    ensures ParseJsonl(TextExport(fps, w, h, duration, frames, stringify), parse)
            == Ok((TextMetadata(fps, w, h, |frames|, duration), LoadedFrames(frames)))
  {
    var meta := TextMetadata(fps, w, h, |frames|, duration);
    var text := TextExport(fps, w, h, duration, frames, stringify);
    var lines := [stringify(meta)] + FrameLines(frames, stringify);
    ExportedLines(fps, w, h, duration, frames, parse, stringify);
    assert Split(Trim(text)) == lines;
    assert parse(lines[0]) == Ok(meta);
    assert lines[1..] == FrameLines(frames, stringify);
    ParseExportedFrames(frames, w, h, parse, stringify);
    TextMetadataFields(fps, w, h, |frames|, duration);
    var rle, width, height := Get(meta, "rle") == Some(JBool(true)), ToNumber(Get(meta, "width")), ToNumber(Get(meta, "height"));
    assert rle && width == Some(w as real) && height == Some(h as real);
    assert ParseFrames(lines[1..], parse, rle, width, height) == Ok(LoadedFrames(frames));
    ParseJsonlOk(text, parse, meta, LoadedFrames(frames));
  }

  lemma MetadataWellFormed(fps: real, w: nat, h: nat, duration: real, loaded: seq<Json>)
    requires fps > 0.0 && w > 0 && h > 0 && |loaded| > 0 && loaded[0].JArr?
    ensures WellFormed(TextMetadata(fps, w, h, |loaded|, duration), loaded)
  {
    var m := TextMetadata(fps, w, h, |loaded|, duration);
    TextMetadataFields(fps, w, h, |loaded|, duration);
    forall key | key in ["fps", "width", "height", "frameCount"]
      ensures key in m.fields && m.fields[key].JNum? && m.fields[key].n > 0.0
    {
    }
  }
}
