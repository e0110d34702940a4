# seurat: a verified model of the video-to-ASCII core

seurat turns a video into coloured ASCII art, either in the browser or with a
Python pipeline. This project models the parts of it that are pure logic, in
Dafny, and proves properties about them:

- **Stylisation** (`stylize.dfy`). Perceived brightness is computed exactly as the
  integer `Luma = 299 r + 587 g + 114 b`, which is brightness times 1000.
  The glyph choice appears in three places, and all three are modelled: the
  browser converter, the player's re-derivation of it, and the Python
  pipeline. The model also covers the optional one-step dither and the dot
  radius of the dot style.
- **Pixel adjustment** (`adjust.dfy`). The exposure/contrast pass and the
  luminance stretch `maximizeContrast` work over an RGBA byte buffer.
  Stores into a `Uint8ClampedArray` are modelled exactly: the value is
  rounded half to even and clamped to `[0, 255]`.
- **Per-cell encodings** (`cells.dfy`). Covers the captured text cell (blank,
  grey value or `[r, g, b]`), the masked binary RGB frame, and the player's
  `parsePixel` for those cells.
- **Geometry** (`geometry.dfy`). Covers the grid height, the 1080p cap, the
  even canvas sides, the AVC level choice, and the Python grid size.
- **Text format** (`rle.dfy`, `textfile.dfy`, `json.dfy`). The run-length
  encoder of the exporter, the player's `isRleItem`, `rleDecodeFlat`,
  `unflattenFrame`, `parseJsonl` and `validateFormat`, and the JSON-lines
  export. `JSON.parse` and `JSON.stringify` are parameters, and parsed JSON
  is a datatype.
- **Delta binary format** (`delta.dfy`). Frame 0 is stored raw and every later
  frame is XOR-ed with its raw predecessor. The repository ships no decoder,
  so the model defines one and proves that it reconstructs the frames.
- **Frame sampling** (`sampler.dfy`). Covers the browser's trimmed frame count,
  seek times and progress percentages, the preview slider, and the Python
  decimation rule with its output file names.
- **Settings form** (`options.dfy`). Covers `getOptions`, `validateOptions`
  and the defaults of the converter's constructor.
- **WAVE writer** (`wav.dfy`). Covers the 44-byte RIFF header and the
  interleaved 16-bit PCM samples of `audioBufferToWav`.
- **Playback** (`playback.dfy`). The player is a state record. Its pure
  transitions are `showFrame`, `play`, `pause`, the drift-corrected `animate`
  clock, seeking, re-rendering, the keyboard and loading. `formatTime` is
  modelled as well.

Some inputs are parameters rather than calls:

- randomness is passed in as the draws (`u1`, `u2`, `u`, `up`);
- the clock is passed in as `now`;
- JSON text conversion is passed in as `parse` and `stringify`.

`base.dfy` holds the shared vocabulary: `Option`/`Result`, bytes, rounding,
and decimal digit strings.

## Model

| member | source | states |
|---|---|---|
| Stylize.Luma | web/public/converter.js:26-28 | brightness x 1000 is at most 255000, equals 1000 v on a grey pixel, and is 0 only for black |
| Stylize.GlyphIndex | web/public/converter.js:37-38 | the noise-free index lies in `[0, n-2]` for an alphabet of `n >= 2` glyphs; a one-glyph alphabet gives index -1 (`undefined`) |
| Stylize.GlyphIndexMonotone | web/public/converter.js:37-38 | a brighter pixel never gets an earlier (denser) glyph |
| Stylize.GlyphIndexUnclamped | web/public/converter.js:37-38 | in exact arithmetic the clamp to `n-2` never changes the index |
| Stylize.Dither | web/public/converter.js:40-45 | the shifted index stays in `[0, n-2]` and at most one step away; with noise off, a short alphabet or `u1 >= noiseLevel` nothing moves |
| Stylize.ColorAsciiChar | web/public/converter.js:30-51 | no glyph exactly when brightness reaches the threshold; the colour is always the input; otherwise a glyph other than the last; noise-free it is the `GlyphIndex` glyph |
| Stylize.DitherStaysNear | web/public/converter.js:37-50 | with noise, the drawn glyph is some glyph within one place of the noise-free one |
| Stylize.CharForBrightness | web/public/player.js:188-195 | a space for white cells, otherwise a glyph other than the last, and `undefined` for a one-glyph alphabet |
| Stylize.PlayerAgreesWithConverter | web/public/player.js:188-195 | the player re-derives exactly the glyph the converter drew with threshold 240 and no noise |
| Stylize.DotRadius | web/public/converter.js:186-192 | the dot radius of a 10-unit cell lies in `[1.5, 5]` and is full size up to brightness 76.5 |
| Stylize.DotRadiusMonotone | web/public/converter.js:191-192 | darker cells get dots at least as large |
| Stylize.PyCharIndex | src/step2_convert_to_ascii.py:46-47 | the Python index lies in `[0, len-2]`, and for `len >= 3` in fact in `[0, len-3]`, so the clamp never fires |
| Stylize.PyColorAsciiChar | src/step2_convert_to_ascii.py:26-58 | `None` exactly for brightness >= 240; the colour is the input; without noise only the first `len-2` glyphs occur |
| Stylize.PyStarUnreachable | src/step2_convert_to_ascii.py:46-47 | as written, `*` is never drawn without noise |
| Stylize.PyColorAsciiCharFixed | src/step2_convert_to_ascii.py:44-47 | corrected mapping: noise-free it is the browser's `GlyphIndex` glyph |
| Stylize.PyFixedReachesEveryGlyph | src/step2_convert_to_ascii.py:44-47 | with the correction, every glyph but the trailing space is drawn for some grey level |
| Adjust.ToUint8Clamp | web/public/converter.js:65 | a `Uint8ClampedArray` store: 0 below, 255 above, otherwise within half a unit of the value, with ties to even |
| Adjust.ToUint8ClampExact | web/public/converter.js:65 | a whole byte value is stored unchanged |
| Adjust.AdjustChannel | web/public/converter.js:60-65 | contrast 100 is a clamped exposure shift, and contrast 0 sends every channel to 128 |
| Adjust.ApplyContrastExposure | web/public/converter.js:53-70 | same length; each pixel's RGB is the adjusted RGB and alpha is untouched; neutral settings leave the buffer unchanged |
| Adjust.LumaExtrema | web/public/converter.js:75-80 | `MinLuma` and `MaxLuma` of the frame: the minimum and maximum luminance, both attained, or (255, 0) for an empty frame |
| Adjust.Extrema | web/public/converter.js:75-80 | over luminances of byte pixels (all in `[0, 255000]`), the scan ends with the `Math.min` and `Math.max` folds from 255 and 0, and these bound every luminance and are each attained, or stay at (255, 0) when there are no pixels |
| Adjust.Lumas | web/public/converter.js:76-78 | one luminance per pixel, in pixel order, each within `[0, 255000]` |
| Adjust.StretchMinimumIsBlack | web/public/converter.js:82-94 | a pixel at the minimum luminance becomes black |
| Adjust.StretchNotDarker | web/public/converter.js:87-94 | a channel scaled by a factor of at least one is not lowered |
| Adjust.StretchMaximumNotDarker | web/public/converter.js:82-94 | the brightest pixel of a frame with spread is not darkened in any channel |
| Adjust.StretchAll | web/public/converter.js:82-95 | each pixel is the stretched pixel and alpha is untouched |
| Adjust.MaximizeContrast | web/public/converter.js:72-97 | every pixel is stretched from the frame's least and greatest luminance, alpha untouched; so the darkest pixels become black, the brightest of a spread frame are not darkened, and a uniform frame comes out all black |
| Adjust.StretchedFrame | web/public/converter.js:82-94 | stretching every pixel from the frame's attained extremes blackens the darkest pixels, does not darken the brightest of a spread frame, and blackens a uniform frame |
| Adjust.AdjustFrame | web/public/converter.js:136-137 | the first pass gives every pixel its adjusted colour, and the second stretches each adjusted pixel by the adjusted frame's least and greatest luminance; alpha untouched |
| Cells.TextCell | web/public/converter.js:170-182 | blank exactly for white pixels, a grey value exactly for non-white grey pixels, `[r, g, b]` otherwise; a non-blank cell keeps the colour |
| Cells.GridIndex | web/public/converter.js:163 | cell `(x, y)` has flat index `y w + x` inside the grid, and that index decodes back to `(x, y)` |
| Cells.CaptureText | web/public/converter.js:157-182 | `h` rows of `w` cells; cell `(x, y)` is the text cell of the pixel under it, blank exactly when that pixel is white |
| Cells.BinaryRgbFrame | web/public/converter.js:474-502 | `3 w h` bytes; a masked or white cell is `(255, 255, 255)`, any other the adjusted pixel; an unmasked cell agrees with the text cell's colour |
| Cells.AppendTriple | web/public/converter.js:478-500 | writing the next triple keeps every earlier one |
| Cells.PaintCell | web/public/player.js:197-209 | a blank cell is a white space; the colour is the cell's; a dark cell draws a glyph other than the last |
| Cells.PaintCapturedCell | web/public/player.js:197-209 | capturing a pixel and painting it back draws the converter's glyph and colour (threshold 240, no noise) |
| Geometry.GridHeight | web/public/converter.js:104-106 | no finite height exactly when the source canvas has zero width; otherwise the floor of `asciiWidth * srcH / srcW / charAspect`, stated as a bracket, for square and 18:10 cells |
| Geometry.Even | web/public/converter.js:121-122 | an even number at most one below its input |
| Geometry.CapBounds | web/public/converter.js:112-118 | the capped size fits 1920x1080 and the input, touches a limit when capping happens, and keeps the aspect ratio up to flooring |
| Geometry.CapWide | web/public/converter.js:112-118 | when the width binds, the width becomes 1920 and the height is the floored proportional height |
| Geometry.CapTall | web/public/converter.js:112-118 | when the height binds, the height becomes 1080 and the width is the floored proportional width |
| Geometry.OutputSize | web/public/converter.js:108-122 | even sides within 1920x1080 and the uncapped size; unchanged up to parity when it fits; otherwise one side at its limit |
| Geometry.AvcTier | web/public/converter.js:556-570 | the least level tier whose pixel limit covers the frame |
| Geometry.AvcTierMonotone | web/public/converter.js:556-570 | a larger frame never gets a lower level |
| Geometry.OutputSizeAvcTier | web/public/converter.js:108-122 | every converter canvas is encoded at level 3.1 or 4.0 |
| Geometry.PyGridSize | src/step2_convert_to_ascii.py:112-121 | a zero frame width raises an error; otherwise the height is the floor of `width * aspect / 1.8` and the image is `(10 width, 18 height)` |
| Geometry.TruncIsDiv | src/step2_convert_to_ascii.py:114 | on non-negative operands `int(a / d)` is integer division |
| Rle.CellJsonInjective | web/public/app.js:715 | two cells have the same JSON exactly when they are equal, so `JSON.stringify` equality is cell equality |
| Rle.RunLength | web/public/app.js:714-717 | the run at `i` is non-empty, all equal to `s[i]`, and maximal |
| Rle.EncodeFrom | web/public/app.js:713-727 | tokens exist exactly while cells remain, and the first one carries the cell at `i` |
| Rle.EncodeFromMaximal | web/public/app.js:713-727 | every run token counts at least 2 and neighbouring tokens carry different cells, so every run is maximal |
| Rle.ExpandStep | web/public/app.js:713-727 | one turn of the loop: the first token stands for the run at `i`, the rest for the cells after it |
| Rle.RleEncode | web/public/app.js:711-729 | runs count at least 2, neighbouring tokens differ, and the output is empty only for an empty frame |
| Rle.ExpandEncodeFrom | web/public/app.js:713-727 | expanding the tokens from `i` gives the cells from `i` |
| Rle.ExpandRleEncode | web/public/app.js:711-729 | expanding the encoder's tokens gives the row-major flattening of the frame |
| Rle.RleItemClassifiesTokens | web/public/player.js:38-45 | `isRleItem` holds for an emitted token exactly when it is a run, so no cell is mistaken for a run |
| Rle.LoopCount | web/public/player.js:51-53 | the decoder's loop runs `ceil(count)` times for a positive count |
| Rle.DecodeToken | web/public/player.js:47-60 | one token decodes to the JSON of the cells it stands for |
| Rle.DecodeTokens | web/public/player.js:47-60 | decoding a token sequence gives the JSON of its expansion |
| Rle.DecodeEncode | web/public/player.js:47-60 | decoding the exporter's tokens gives back the JSON of every cell of the flattened frame |
| Rle.RleExample | web/public/app.js:711-729 | `[5, 5, 5, 7, 5]` encodes to `[[3, 5], 7, 5]` and decodes back |
| Rle.PairIsReadAsRun | web/public/player.js:38-45 | a two-number pair led by a count above 1 is read as a run |
| Rle.Slice | web/public/player.js:65 | `Array.prototype.slice` with relative indices clamped to the array |
| Rle.RowCount | web/public/player.js:64 | `for (y = 0; y < height; y++)` runs `ceil(height)` times, and none for a non-positive or NaN height |
| Rle.Unflatten | web/public/player.js:62-68 | `RowCount(height)` rows, row `y` being `flat.slice(y width, (y + 1) width)` |
| Rle.FlattenRow | web/public/player.js:62-68 | row `y` of an `h` by `w` grid sits at `[y w, y w + w)` of its flattening |
| Rle.FlattenLength | web/public/app.js:712 | an `h` by `w` grid flattens to `h w` cells |
| Rle.FlattenAt | web/public/app.js:712 | cell `(x, y)` of an `h` by `w` grid is cell `RowStart(y, w) + x` of its flattening |
| Rle.RowStartMul | web/public/player.js:65 | row `y` of width `w` starts at `y w` |
| Rle.UnflattenFlatten | web/public/player.js:62-68 | unflattening a flattened grid with its own width and height gives the grid back |
| Rle.RowOfGrid | web/public/player.js:65 | with an integer width, row `y` is the plain slice `[y w, y w + w)` |
| TextFile.TrimStart | web/public/player.js:71 | strips exactly the leading white space |
| TextFile.TrimEnd | web/public/player.js:71 | strips exactly the trailing white space |
| TextFile.Trim | web/public/player.js:71 | the result neither starts nor ends with white space |
| TextFile.TrimEmpty | web/public/player.js:83 | a line is skipped exactly when it is all white space |
| TextFile.TrimUnchanged | web/public/player.js:71 | a string without white space at its ends is its own trim |
| TextFile.Split | web/public/player.js:71 | at least one part, and no part holds a newline |
| TextFile.JoinSplit | web/public/app.js:747 | joining the split parts with newlines gives the text back |
| TextFile.SplitJoin | web/public/app.js:747 | splitting the joined newline-free lines gives the lines back |
| TextFile.DecodeRow | web/public/player.js:92 | an array row is run-length decoded; a row that is neither an array nor a string makes the decoder throw |
| TextFile.DecodeRows | web/public/player.js:92 | one decoded row per row, and success when every row is an array |
| TextFile.DecodeFrame | web/public/player.js:87-93 | a flat frame is decoded and unflattened to the metadata's width and height; a non-array frame throws |
| TextFile.ParseFrames | web/public/player.js:82-95 | one frame per non-blank line |
| TextFile.ParseFramesPlain | web/public/player.js:82-95 | without RLE the frames are the parsed non-blank lines, in order |
| TextFile.ParseJsonl | web/public/player.js:70-98 | fewer than two lines after trimming is the error "JSONL file must have at least metadata and one frame"; success gives one frame per non-blank frame line |
| TextFile.ParseJsonlOk | web/public/player.js:70-98 | the parse succeeds with the metadata line and the decoded frames once each step does |
| TextFile.ValidateFormatAccepts | web/public/player.js:131-175 | `validateFormat` accepts exactly objects with positive numeric fps, width, height and frameCount, `frameCount` frames, the first an array |
| TextFile.TextMetadataFields | web/public/app.js:734-741 | the metadata line carries fps, width, height, frameCount, duration and `rle: true` as the player reads them |
| TextFile.FrameLines | web/public/app.js:743-745 | one line per frame: the stringified RLE tokens of that frame |
| TextFile.FlattenGridJson | web/public/player.js:62-68 | flattening the JSON rows is the JSON of the flattened cells |
| TextFile.TokenNotNested | web/public/player.js:88 | the first token of an exported frame is never an array led by an array, so the flat branch is taken |
| TextFile.DecodeExportedFrame | web/public/player.js:87-90 | decoding an exported `h` by `w` frame gives its rows back |
| TextFile.ParseExportedLine | web/public/player.js:83-94 | an exported frame line is not blank, parses, and decodes to its frame |
| TextFile.ParseExportedFrames | web/public/player.js:82-95 | the frame loop over exported lines gives back every frame |
| TextFile.ExportedLines | web/public/app.js:731-747 | the exported text splits back into the metadata line and the frame lines |
| TextFile.ExportThenLoad | web/public/app.js:731-747 | exporting frames as text and loading them in the player gives back the metadata and every frame's cells, and the file passes `validateFormat` when fps is positive |
| TextFile.MetadataWellFormed | web/public/player.js:131-175 | exported metadata with positive fps and frames is well-formed |
| Delta.XorBelow | web/public/app.js:648 | the XOR of two `k`-bit values is a `k`-bit value, so a byte store keeps it |
| Delta.XorCancel | web/public/app.js:648 | XOR-ing twice with the same value restores the first operand |
| Delta.Xor | web/public/app.js:648 | a byte XOR is undone by XOR with the same byte |
| Delta.XorSeqCancel | web/public/app.js:647-649 | XOR-ing a frame twice with the same predecessor restores it |
| Delta.DeltaFrames | web/public/app.js:638-650 | frame 0 raw and frame `f` XOR-ed with raw frame `f-1`, every frame `bytesPerFrame` long |
| Delta.DeltaRoundTrip | web/public/app.js:641-650 | sequential XOR decoding reconstructs every raw frame |
| Delta.DeltaFramesPrefix | web/public/app.js:641-650 | encoding all frames but the last gives the same encoded frames as encoding them all, minus the last |
| Delta.XorFrame | web/public/app.js:647-649 | the inner loop's chunk, which XOR with the predecessor undoes |
| Delta.EncodeDelta | web/public/app.js:634-650 | the output buffer is the concatenation of the encoded frames |
| Delta.BodyLayout | web/public/app.js:634-650 | the body is `frameCount * bytesPerFrame` bytes, frame `f` at offset `f * bytesPerFrame`, frame 0 raw |
| Delta.DecodeBodyOfExport | web/public/app.js:634-650 | cutting the body into frames and decoding gives every raw frame back |
| Delta.NeilExport | web/public/app.js:618-696 | no frames is an error; otherwise the metadata record, raw frame 0 as the side file, and a body of the right size that decodes to the frames |
| Delta.DeltaExample | web/public/app.js:641-650 | `[10, 20, 30]`, `[15, 20, 25]` encode to `[10, 20, 30, 5, 0, 7]` |
| Sampler.FrameBudget | web/public/converter.js:225-229 | no frames exactly when the trims cover `floor(duration fps)`; otherwise the frames end at `floor(duration fps) - skipEnd` |
| Sampler.SampleTime | web/public/converter.js:238 | frame `i` is requested at `i / fps` |
| Sampler.SampleTimeMonotone | web/public/converter.js:238 | later frames are requested at later times |
| Sampler.ExtractFrames | web/public/converter.js:225-259 | the trimmed count; sample `k` at `(skipStart + k) / fps`, strictly increasing and before the end trim; percentages in `[0, 50]`, non-decreasing and ending at 50 |
| Sampler.SampleTimesIncrease | web/public/converter.js:236-240 | sample `k` is requested at grid frame `skipStart + k`, and every sample comes later than the one before |
| Sampler.ProgressesRange | web/public/converter.js:252 | over a whole extraction the percentages stay in `[0, 50]`, never decrease, and end at 50 |
| Sampler.ProgressMonotone | web/public/converter.js:252 | the reported percentage never decreases |
| Sampler.ProgressEnds | web/public/converter.js:252 | the percentage runs from 0 to 50 |
| Sampler.SliderRange | web/public/app.js:233-246 | nothing changes without preview frames; the maximum is `max(0, effective - 1)`; the value is clamped to it; the previewed source frame is `skipStart + value` when it exists |
| Sampler.SliderStaysInTrimmedRange | web/public/app.js:236-246 | with frames left after trimming, the previewed frame lies in the trimmed range and every frame of it is reachable |
| Sampler.TargetIsProduct | src/step1_extract_frames.py:49-61 | after `k` extractions the next target is `k * frame_interval` |
| Sampler.TargetBelowCount | src/step1_extract_frames.py:49-61 | with an interval of at most one frame the target never runs ahead of `k` |
| Sampler.Pick | src/step1_extract_frames.py:57-61 | the `k`-th written frame is the first frame at or past both `k` and the target |
| Sampler.PickStep | src/step1_extract_frames.py:57-63 | consecutive picks are at least one frame apart |
| Sampler.PicksIncrease | src/step1_extract_frames.py:57-63 | picks are strictly increasing |
| Sampler.PickAt | src/step1_extract_frames.py:57-61 | a frame at or past both bounds and not past the target's ceiling is the pick |
| Sampler.PickIsFirstAtOrAfter | src/step1_extract_frames.py:57-61 | for `frame_interval >= 1` the `k`-th written frame is `ceil(k * frame_interval)` |
| Sampler.PicksBelow | src/step1_extract_frames.py:57-63 | the first `n` picks are strictly increasing and all lie below any bound the last one is below |
| Sampler.Decimate | src/step1_extract_frames.py:47-63 | at most one frame per frame read, strictly increasing, frame 0 always first, each the next pick, none missed, names `frame_000000.png`, ... |
| Sampler.PyExtractFrames | src/step1_extract_frames.py:27-68 | an unopenable capture raises before reading, a zero target rate divides by zero, otherwise the decimated frames and their names |
| Sampler.Pad6 | src/step1_extract_frames.py:58 | `{:06d}` is at least six characters, exactly six below a million |
| Sampler.FrameNames | src/step1_extract_frames.py:58-60 | the `k`-th name is `frame_` + the padded `k` + `.png` |
| Sampler.ParsePad6 | src/step1_extract_frames.py:58 | the padded number reads back as the frame index |
| Sampler.FrameNamesDistinct | src/step1_extract_frames.py:58 | distinct frames get distinct file names, so no file is overwritten |
| Options.GetOptions | web/public/app.js:412-428 | fps, width, threshold and contrast keep a non-zero number and otherwise fall back to 10, 300, 240 and 100; the noise is the field's percentage, or 0.15; an empty alphabet gives the default; the trims fall back to 0 |
| Options.FilledFormKept | web/public/app.js:412-428 | a form with non-zero numbers and an alphabet is taken as it is, the noise as a percentage |
| Options.ValidateOptions | web/public/app.js:430-444 | accepted exactly with a file, fps in `[1, 30]` and width in `[40, 720]`; otherwise the file, fps or width alert, whichever check fails first |
| Options.BlankFormDefaults | web/public/app.js:412-428 | an untouched form gives the documented defaults and passes validation |
| Options.ConverterStyle | web/public/converter.js:8-12 | the constructor's alphabet is never empty and its noise level never 0 |
| Options.NoiseZeroStillDithers | web/public/app.js:420 | as written, a noise field of 0 still dithers: a grey-60 pixel can draw `V` where the noise-free glyph is `$` |
| Options.NoiseLevelFixed | web/public/app.js:420 | corrected reading: a missing field is 15 %, any number (0 included) is taken as a percentage |
| Options.ConverterStyleFixed | web/public/converter.js:8-12 | corrected constructor: the options' noise level is kept |
| Options.Configure | web/public/app.js:412-444 | validation passes exactly when `validateOptions` accepts, and the converter then dithers at the form's own level |
| Options.NoiseZeroIsDeterministic | web/public/converter.js:40-45 | with the correction, a noise field of 0 draws the noise-free glyph whatever the draws |
| Wav.Le16RoundTrip | web/public/converter.js:324 | a little-endian 16-bit write reads back modulo 2^16, and signed values in range read back exactly |
| Wav.Le32RoundTrip | web/public/converter.js:300 | a little-endian 32-bit write reads back modulo 2^32 |
| Wav.HeaderRoundTrip | web/public/converter.js:282-311 | the header reads back as RIFF size `total - 8`, PCM format 1, the channel count, the sample rate, `byteRate = sampleRate * blockAlign`, `blockAlign = channels * 2`, 16 bits and `dataSize = samples * blockAlign` |
| Wav.PcmSample | web/public/converter.js:322-323 | a sample lies in `[-32768, 32767]`, saturates at the ends and keeps its sign |
| Wav.PcmSampleMonotone | web/public/converter.js:322-323 | a louder input never gives a smaller sample |
| Wav.PcmAt | web/public/converter.js:319-326 | sample `k` of the stream reads back at byte `2 k` |
| Wav.AudioBufferToWav | web/public/converter.js:276-330 | `44 + samples * channels * 2` bytes: the header, then the interleaved 16-bit samples |
| Wav.WriteSamples | web/public/converter.js:319-327 | the sample loop writes the interleaved little-endian stream of every frame |
| Wav.WriteFrame | web/public/converter.js:321-326 | one turn of the outer loop writes that frame's channels in order |
| Wav.Frames | web/public/converter.js:319-323 | one row per sample frame holding every channel's 16-bit sample in channel order, each in `[-32768, 32767]` |
| Wav.SampleReadBack | web/public/converter.js:319-327 | cell `c` of row `i` of the interleaved samples reads back from the file at byte `44 + 2 (i channels + c)` |
| Playback.Init | web/public/player.js:19-24 | the opening state satisfies the player invariant, with nothing loaded and nothing playing |
| Playback.ShowFrame | web/public/player.js:331-337 | an index in `[0, frames)` becomes the current frame and the seek bar value; any other is ignored |
| Playback.Pause | web/public/player.js:347-354 | stops and cancels the pending callback, keeping the frame and the invariant |
| Playback.Animate | web/public/player.js:356-376 | before a period passes nothing moves; then it advances by the whole periods elapsed, jumps to 0 past the end, and moves the clock by exactly those periods to within one period of `now` |
| Playback.ClockStep | web/public/player.js:363-372 | `elapsed % period` is what remains after the whole periods, and it is less than one period |
| Playback.TickAfterPeriod | web/public/player.js:363-372 | once a period has passed, the clock moves by at least one whole period, by exactly the whole periods elapsed, and lands within one period of `now` |
| Playback.TickClock | web/public/player.js:363-372 | one callback moves the clock by the whole periods elapsed, staying between the old clock and `now` |
| Playback.TickNoDrift | web/public/player.js:363-372 | two callbacks leave the clock where one callback at the later time would, so no time is lost |
| Playback.PeriodsAdd | web/public/player.js:364-372 | counting `k` periods and then the periods in the rest counts the same periods as counting them all at once |
| Playback.Play | web/public/player.js:339-345 | a no-op while playing; otherwise starts the clock at `now` on the same frame and schedules a callback |
| Playback.Toggle | web/public/player.js:440-446 | the play button and the space bar flip playing and keep the frame |
| Playback.Seek | web/public/player.js:448-453 | the playing state is restored, the frame is the chosen one when it exists, and a resumed clock starts at `now` |
| Playback.Rerender | web/public/player.js:455-484 | nothing happens before loading; otherwise the frame and the playing state are kept |
| Playback.OnKey | web/public/player.js:514-541 | keys are ignored until loading; space toggles; arrows, Home and End pause and move to the clamped neighbour, frame 0 or the last frame |
| Playback.OnLoad | web/public/player.js:420-433 | a loaded file shows frame 0, stopped, with the invariant established |
| Playback.EndThenHome | web/public/player.js:532-540 | End then Home visits the last frame and frame 0 and leaves the player stopped |
| Playback.ArrowsUndo | web/public/player.js:524-531 | away from the end, right then left returns to the same frame |
| Playback.PadStart2 | web/public/player.js:322 | `padStart(2, '0')` pads a shorter string to two characters on the left and leaves a longer one alone |
| Playback.MinutesSeconds | web/public/player.js:319-323 | the minutes and the seconds below 60 that the display shows add up to the whole seconds |
| Playback.TwoDigits | web/public/player.js:322 | seconds below a minute pad to exactly two digits that read back as the seconds |
| Playback.FormatTimeReadBack | web/public/player.js:319-323 | for a non-negative time the display reads back as minutes, a colon and two-digit seconds below 60 that add up to the whole seconds |
| Base.ParseDigitsOfDigits | web/public/player.js:322 | the decimal digits of a number read back as that number |
| Base.ParseLeadingZeros | src/step1_extract_frames.py:58 | leading zeros do not change a decimal value |

## Left out

- Legacy cell shapes. `parsePixel`'s `[char, colour]` branch (web/public/player.js:211-220) reads files this exporter never writes, so it is not modelled.
- Browser media and drawing. HTML, SVG and canvas string building, `drawImage` resampling, fonts, fullscreen sizing, video seeking and the media encoders (VideoEncoder, AudioEncoder, the MP4 muxer, MediaRecorder) are opaque browser services.
- Compression. gzip compression and decompression are treated as the identity.
- Library code. Python's OpenCV and PIL calls are library code. That includes the CLAHE `maximize_contrast` and the image I/O. step3 and `convert_video.py` only orchestrate these calls.
- Floating point. Arithmetic is exact over reals and integers, so Float64 rounding is not modelled. `setInt16` truncates its argument, and `PcmSample` does the same on the exact value.
- Sampler.TargetIsProduct: Python accumulates `next_frame_to_extract` in floating point. The model uses exact reals, so after many frames an accumulated rounding error could move a pick by one frame.
- JSON shapes. Values that are neither numbers, strings, arrays, objects, booleans nor null are not modelled. Neither are `JSON.parse` errors beyond a `Result`.
- TextFile.ToNumber: `null` reads as 0 and booleans as 1 and 0, as in JavaScript, but string, array and object `width`/`height` read as NaN. JavaScript would coerce a numeric string such as `"3"` or a one-element array such as `[3]` to 3 in `y < height` and `y * width` (web/public/player.js:64-65). `validateFormat` rejects such a file either way, because it demands `typeof width === 'number'`.
- Stylize.ColorAsciiChar: the alphabet is a sequence of Unicode characters, while JavaScript's `asciiChars.length` and `asciiChars[index]` count UTF-16 code units. An alphabet holding a character outside the Basic Multilingual Plane therefore gets a different `n - 1` scale in JavaScript, which can also draw half of a surrogate pair. Dafny's characters cannot hold a lone surrogate, so this case is not modelled. Python's `len` and indexing count code points, so the Python mapping is exact.
- Stylize.CharForBrightness: the same code-unit difference applies to the player's `asciiChars.length` and `asciiChars[charIndex]` (web/public/player.js:192-194).
- Geometry.GridHeight: a zero-width source canvas gives no finite height (None). The canvas sizes JavaScript then derives from Infinity or NaN are not modelled.
- Options.GetOptions: `parseInt(...) ?? -100` for the exposure never falls back, because `parseInt` yields NaN, not `null`. The model keeps the field as `None`, and what the converter then does with NaN is not modelled.
- Dead checks. The two checks of `validateFormat` on `data` itself (web/public/player.js:132-134) cannot fail on the object `parseJsonl` returns.
- Preview frame count. The preview's frame count (web/public/app.js:207) comes from the video element and is a parameter.
- Wav.AudioBufferToWav: channel data are reals, and NaN samples are not modelled. The sample rate is a natural number.
- Time display. `updateTimeDisplay` (web/public/player.js:325-329) only formats text; `FormatTime` models its pieces.
- Playback.OnLoad: a callback scheduled before a reload is not cancelled. The model keeps the `pending` flag as it was, but the frames a stale callback would then draw are not modelled.
- Playback.Seek: the seek bar, the play button and the re-render button are hidden until a file is loaded. Seek and Toggle therefore require a loaded player, and the TypeError a click before loading would raise is not modelled.
- Playback.Animate: both `play` and `animate` read `performance.now()`; the model gives them the same `now`.

## Findings

| source | as written | input that shows it | evidently intended | confidence | as-written member | corrected member |
|---|---|---|---|---|---|---|
| src/step2_convert_to_ascii.py:46-47 | the index multiplies by `len(ASCII_CHARS) - 2` | a grey-180 pixel gives index `int(180/240*3) = 2` (`V`); no brightness below 240 reaches index 3 (`*`) without noise | multiply by `len - 1`, as the comment at lines 44-45 and the browser converter do, so that indices `0 .. len-2` are all used | high, not executed | Stylize.PyStarUnreachable | Stylize.PyFixedReachesEveryGlyph |
| web/public/app.js:420 | `(parseInt(noise) \|\| 15) / 100` turns a noise field of 0 into 0.15, and `options.noiseLevel \|\| 0.15` (web/public/converter.js:12) would do it again | noise field `0`: a grey-60 pixel with draws (0.0, 0.9) is drawn as `V` instead of `$` | 0 switches the dither off (the converter itself checks `noiseLevel > 0`) | medium, not executed | Options.NoiseZeroStillDithers | Options.NoiseZeroIsDeterministic |
