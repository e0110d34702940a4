/** The settings form of the web page: `getOptions` and `validateOptions`
    (app.js:412-444) and the defaults the converter's constructor applies
    (converter.js:7-20). A form field is what `parseInt` made of its text:
    a number, or None for NaN. */
module Options {
  import opened Base
  import opened Stylize

  /** The alphabet used when the form's alphabet field is empty. */
  const DefaultChars: string := "F$V* "

  /** The numeric fields of the form after `parseInt`, and the alphabet text. */
  datatype Form = Form(
    fps: Option<int>, width: Option<int>, chars: string, noise: Option<int>,
    threshold: Option<int>, contrast: Option<int>, exposure: Option<int>,
    skipStart: Option<int>, skipEnd: Option<int>)

  /** The options object handed to the converter. `exposure` stays None when
      the field is not a number: `parseInt` yields NaN there, never `null`,
      so the `?? -100` fallback does not apply. */
  datatype Settings = Settings(
    fps: int, width: int, chars: string, noiseLevel: real, threshold: int,
    contrast: int, exposure: Option<int>, skipStart: int, skipEnd: int)

  /** `x || d` on a parsed number: NaN and 0 are falsy and give `d`. */
  function OrElse(x: Option<int>, d: int): int {
    if x.None? || x.value == 0 then d else x.value
  }

  /** `getOptions` as written. */
  function GetOptions(f: Form): (o: Settings)
    // every numeric field keeps a non-zero number and otherwise falls back
    ensures o.fps == (if f.fps.None? || f.fps == Some(0) then 10 else f.fps.value)
    ensures o.width == (if f.width.None? || f.width == Some(0) then 300 else f.width.value)
    ensures o.chars == (if f.chars == "" then DefaultChars else f.chars)
    ensures o.noiseLevel == (if f.noise.None? || f.noise == Some(0) then 0.15 else f.noise.value as real / 100.0)
    ensures o.noiseLevel > 0.0 || (f.noise.Some? && f.noise.value < 0)
    ensures o.threshold == (if f.threshold.None? || f.threshold == Some(0) then 240 else f.threshold.value)
    ensures o.contrast == (if f.contrast.None? || f.contrast == Some(0) then 100 else f.contrast.value)
    ensures o.exposure == f.exposure
    ensures o.skipStart == (if f.skipStart.None? then 0 else f.skipStart.value)
    ensures o.skipEnd == (if f.skipEnd.None? then 0 else f.skipEnd.value)
  {
    Settings(
      OrElse(f.fps, 10), OrElse(f.width, 300),
      if f.chars == "" then DefaultChars else f.chars,
      OrElse(f.noise, 15) as real / 100.0,
      OrElse(f.threshold, 240), OrElse(f.contrast, 100), f.exposure,
      OrElse(f.skipStart, 0), OrElse(f.skipEnd, 0))
  }

  /** `validateOptions`: the first complaint, or None when the options are
      accepted. */
  function ValidateOptions(hasFile: bool, o: Settings): (alert: Option<string>)
    ensures alert.None? <==> hasFile && 1 <= o.fps <= 30 && 40 <= o.width <= 720
    ensures !hasFile ==> alert == Some("Please select a video file")
    ensures hasFile && !(1 <= o.fps <= 30) ==> alert == Some("FPS must be between 1 and 30")
    ensures hasFile && 1 <= o.fps <= 30 && !(40 <= o.width <= 720) ==>
              alert == Some("Width must be between 40 and 720")
  {
    if !hasFile then Some("Please select a video file")
    else if o.fps < 1 || o.fps > 30 then Some("FPS must be between 1 and 30")
    else if o.width < 40 || o.width > 720 then Some("Width must be between 40 and 720")
    else None
  }

  /** An untouched form passes validation once a file is chosen, with the
      documented defaults: 10 fps, 300 columns, alphabet `DefaultChars`, noise 0.15,
      threshold 240, contrast 100, no trimming. */
  lemma BlankFormDefaults()
    ensures var f := Form(None, None, "", None, None, None, None, None, None);
            var o := GetOptions(f);
            && ValidateOptions(true, o).None?
            && o == Settings(10, 300, DefaultChars, 0.15, 240, 100, None, 0, 0)
  {
    var o := GetOptions(Form(None, None, "", None, None, None, None, None, None));
    assert o.noiseLevel == 15 as real / 100.0;
  }

  /** A form whose numeric fields all hold non-zero numbers and whose
      alphabet is not empty is taken as it is, the noise as a percentage. */
  lemma FilledFormKept(fps: int, width: int, chars: string, noise: int, threshold: int,
                       contrast: int, exposure: int, skipStart: int, skipEnd: int)
    requires fps != 0 && width != 0 && chars != [] && noise != 0 && threshold != 0 && contrast != 0
    ensures GetOptions(Form(Some(fps), Some(width), chars, Some(noise), Some(threshold), Some(contrast),
                            Some(exposure), Some(skipStart), Some(skipEnd)))
            == Settings(fps, width, chars, noise as real / 100.0, threshold, contrast, Some(exposure),
                        skipStart, skipEnd)
  {
  }

  /** The style the converter's constructor builds from the options:
      an empty alphabet and a zero (or NaN) noise level are replaced by the
      defaults. */
  function ConverterStyle(o: Settings): (st: Style)
    ensures |st.chars| >= 1
    ensures st.threshold == o.threshold
    ensures st.noiseLevel != 0.0
    ensures o.noiseLevel != 0.0 ==> st.noiseLevel == o.noiseLevel
  {
    Style(if o.chars == "" then DefaultChars else o.chars, o.threshold,
          if o.noiseLevel == 0.0 then 0.15 else o.noiseLevel)
  }

  /** As written, a noise field of 0 becomes 0.15 in `getOptions`, and the
      constructor would also turn 0 into 0.15: the dither cannot be
      switched off. On a grey-60 pixel with the draws (0.0, 0.9) the
      converter draws `V` where the noise-free choice is `$`. */
  lemma NoiseZeroStillDithers(v: Byte)
    requires v == 60
    ensures var f := Form(None, None, "", Some(0), None, None, None, None, None);
            var st := ConverterStyle(GetOptions(f));
            && st == Style(DefaultChars, 240, 0.15)
            && ColorAsciiChar(Pixel(v, v, v), st, 0.0, 0.9).ch == Char('V')
            && CharForBrightness(Luma(Pixel(v, v, v)), st.chars, st.threshold) == Char('$')
  {
    var o := GetOptions(Form(None, None, "", Some(0), None, None, None, None, None));
    assert o.noiseLevel == 15 as real / 100.0;
    assert Luma(Pixel(v, v, v)) == 60000;
    assert 60000 * 4 / 240000 == 1;
  }

  /** The evidently intended reading: a missing field defaults to 15, any
      number (0 included) is taken as a percentage. */
  function NoiseLevelFixed(noise: Option<int>): (level: real)
    ensures noise.None? ==> level == 0.15
    ensures noise.Some? ==> level * 100.0 == noise.value as real
  {
    if noise.None? then 0.15 else noise.value as real / 100.0
  }

  /** `getOptions` with the intended noise reading. */
  function GetOptionsFixed(f: Form): (o: Settings)
    ensures o == GetOptions(f).(noiseLevel := NoiseLevelFixed(f.noise))
  {
    GetOptions(f).(noiseLevel := NoiseLevelFixed(f.noise))
  }

  /** The constructor with the intended default: the level is only replaced
      when it is missing, which `getOptions` never lets happen. */
  function ConverterStyleFixed(o: Settings): (st: Style)
    ensures |st.chars| >= 1
    ensures st.threshold == o.threshold && st.noiseLevel == o.noiseLevel
  {
    Style(if o.chars == "" then DefaultChars else o.chars, o.threshold, o.noiseLevel)
  }

  /** Validation and the converter style for one run of the corrected page. */
  function Configure(hasFile: bool, f: Form): (r: Result<(Settings, Style), string>)
    ensures r.Ok? <==> ValidateOptions(true, GetOptions(f)).None? && hasFile
    ensures r.Ok? ==> r.value.1.noiseLevel == NoiseLevelFixed(f.noise)
    ensures r.Ok? ==> 1 <= r.value.0.fps <= 30 && 40 <= r.value.0.width <= 720
  {
    var o := GetOptionsFixed(f);
    var alert := ValidateOptions(hasFile, o);
    if alert.Some? then Err(alert.value) else Ok((o, ConverterStyleFixed(o)))
  }

  /** With the correction, a noise field of 0 makes every glyph the
      noise-free one, whatever the random draws. */
  lemma NoiseZeroIsDeterministic(f: Form, p: Pixel, u1: real, u2: real)
    requires f.noise == Some(0)
    ensures var st := ConverterStyleFixed(GetOptionsFixed(f));
            && st.noiseLevel == 0.0
            && ColorAsciiChar(p, st, u1, u2).ch
               == (if IsWhite(Luma(p), st.threshold) then NoChar
                   else CharAt(st.chars, GlyphIndex(Luma(p), st.threshold, |st.chars|)))
  {
    var st := ConverterStyleFixed(GetOptionsFixed(f));
    assert st.noiseLevel == 0 as real / 100.0;
  }
}
