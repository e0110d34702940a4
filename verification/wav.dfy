/** `audioBufferToWav` (converter.js:276-330): a 44-byte RIFF/WAVE header
    for 16-bit PCM followed by the channels' samples, interleaved frame by
    frame, each clamped to [-1, 1] and scaled to a signed 16-bit integer.
    The `DataView` writes are little-endian and wrap to the field's width. */
module Wav {
  import opened Base
  import opened Rle

  const Two16: int := 0x1_0000
  const Two32: int := 0x1_0000_0000

  /** `setUint16(_, x, true)` / `setInt16(_, x, true)` on an integer: the
      value modulo 2^16, low byte first. */
  function Le16(x: int): (b: seq<Byte>)
    ensures |b| == 2
  {
    var u := x % Two16;
    [u % 256, u / 256]
  }

  /** `setUint32(_, x, true)` on an integer: the value modulo 2^32, low byte first. */
  function Le32(x: int): (b: seq<Byte>)
    ensures |b| == 4
  {
    var u := x % Two32;
    [u % 256, u / 0x100 % 256, u / 0x1_0000 % 256, u / 0x100_0000]
  }

  /** `getUint16(off, true)`. */
  function ReadU16(b: seq<Byte>, off: nat): nat
    requires off + 2 <= |b|
  {
    b[off] as int + 256 * b[off + 1] as int
  }

  /** `getUint32(off, true)`. */
  function ReadU32(b: seq<Byte>, off: nat): nat
    requires off + 4 <= |b|
  {
    b[off] as int + 0x100 * b[off + 1] as int + 0x1_0000 * b[off + 2] as int + 0x100_0000 * b[off + 3] as int
  }

  /** `getInt16(off, true)`: the two's-complement reading. */
  function ReadI16(b: seq<Byte>, off: nat): int
    requires off + 2 <= |b|
  {
    var u := ReadU16(b, off);
    if u >= 0x8000 then u - Two16 else u
  }

  lemma Le16RoundTrip(x: int)
    ensures ReadU16(Le16(x), 0) == x % Two16
    ensures -0x8000 <= x < 0x8000 ==> ReadI16(Le16(x), 0) == x
  {
    var u := x % Two16;
    DivModUnique(u, 256, u / 256, u % 256);
    if x < 0 && -0x8000 <= x {
      DivModUnique(x, Two16, -1, x + Two16);
    } else if 0 <= x < 0x8000 {
      DivModUnique(x, Two16, 0, x);
    }
  }

  lemma Le32RoundTrip(x: int)
    ensures ReadU32(Le32(x), 0) == x % Two32
  {
    var u := x % Two32;
    var r0, q1 := u % 256, u / 256;
    var r1, q2 := q1 % 256, q1 / 256;
    var r2, q3 := q2 % 256, q2 / 256;
    assert u == 256 * q1 + r0;
    assert q1 == 256 * q2 + r1;
    assert q2 == 256 * q3 + r2;
    DivModUnique(u, 0x1_0000, q2, 256 * r1 + r0);
    DivModUnique(u, 0x100_0000, q3, 0x1_0000 * r2 + 256 * r1 + r0);
  }

  /** `writeString`: one `setUint8` per UTF-16 code unit. */
  function Ascii(s: string): (b: seq<Byte>)
    ensures |b| == |s|
    ensures forall i :: 0 <= i < |s| && (s[i] as int) < 256 ==> b[i] == s[i] as int
  {
    seq(|s|, (i: int) requires 0 <= i < |s| => (s[i] as int) % 256)
  }

  /** The fields of a canonical 44-byte PCM WAVE header, as a reader sees them. */
  datatype WavFormat = WavFormat(
    riffSize: nat, fmtSize: nat, audioFormat: nat, channels: nat, sampleRate: nat,
    byteRate: nat, blockAlign: nat, bitsPerSample: nat, dataSize: nat)

  /** The header the converter writes for `samples` frames of `numChannels`
      16-bit channels at `sampleRate` Hz. */
  function WavHeader(numChannels: nat, sampleRate: nat, samples: nat): (h: seq<Byte>)
    ensures |h| == 44
  {
    var blockAlign := numChannels * 2;
    var dataSize := samples * blockAlign;
    var bufferSize := 44 + dataSize;
    Ascii("RIFF") + Le32(bufferSize - 8) + Ascii("WAVE")
    + Ascii("fmt ") + Le32(16) + Le16(1) + Le16(numChannels)
    + Le32(sampleRate) + Le32(sampleRate * blockAlign) + Le16(blockAlign) + Le16(16)
    + Ascii("data") + Le32(dataSize)
  }

  /** A reader of the canonical header: the four tags must be in place. */
  function ParseHeader(b: seq<Byte>): Option<WavFormat>
    requires |b| >= 44
  {
    if b[0..4] == Ascii("RIFF") && b[8..12] == Ascii("WAVE")
       && b[12..16] == Ascii("fmt ") && b[36..40] == Ascii("data")
    then
      Some(WavFormat(ReadU32(b, 4), ReadU32(b, 16), ReadU16(b, 20), ReadU16(b, 22),
                     ReadU32(b, 24), ReadU32(b, 28), ReadU16(b, 32), ReadU16(b, 34),
                     ReadU32(b, 40)))
    else None
  }

  /** Reading the header back gives the RIFF size `total - 8`, PCM format 1
      with 16 bits per sample, `blockAlign = channels * 2`, `byteRate =
      sampleRate * blockAlign` and `dataSize = samples * blockAlign`, each
      reduced to its field's width. */
  lemma HeaderRoundTrip(numChannels: nat, sampleRate: nat, samples: nat)
    ensures var blockAlign := numChannels * 2;
            var dataSize := samples * blockAlign;
            ParseHeader(WavHeader(numChannels, sampleRate, samples))
            == Some(WavFormat((44 + dataSize - 8) % Two32, 16, 1, numChannels % Two16,
                              sampleRate % Two32, (sampleRate * blockAlign) % Two32,
                              blockAlign % Two16, 16, dataSize % Two32))
  {
    var blockAlign := numChannels * 2;
    var dataSize := samples * blockAlign;
    var h := WavHeader(numChannels, sampleRate, samples);
    assert h[0..4] == Ascii("RIFF") && h[8..12] == Ascii("WAVE");
    assert h[12..16] == Ascii("fmt ") && h[36..40] == Ascii("data");
    FieldU32(h, 4, 44 + dataSize - 8);
    FieldU32(h, 16, 16);
    FieldU16(h, 20, 1);
    FieldU16(h, 22, numChannels);
    FieldU32(h, 24, sampleRate);
    FieldU32(h, 28, sampleRate * blockAlign);
    FieldU16(h, 32, blockAlign);
    FieldU16(h, 34, 16);
    FieldU32(h, 40, dataSize);
  }

  lemma FieldU16(h: seq<Byte>, off: nat, x: int)
    requires off + 2 <= |h| && h[off..off + 2] == Le16(x)
    ensures ReadU16(h, off) == x % Two16
  {
    Le16RoundTrip(x);
  }

  lemma FieldU32(h: seq<Byte>, off: nat, x: int)
    requires off + 4 <= |h| && h[off..off + 4] == Le32(x)
    ensures ReadU32(h, off) == x % Two32
  {
    Le32RoundTrip(x);
  }

  /** One sample as written: clamped to [-1, 1], then scaled by 0x8000 when
      negative and by 0x7FFF otherwise; `setInt16` truncates toward zero. */
  function PcmSample(x: real): (v: int)
    ensures -0x8000 <= v <= 0x7FFF
    ensures x >= 1.0 ==> v == 0x7FFF
    ensures x <= -1.0 ==> v == -0x8000
    ensures (x >= 0.0 ==> v >= 0) && (x <= 0.0 ==> v <= 0)
  {
    var s := if x < -1.0 then -1.0 else if x > 1.0 then 1.0 else x;
    Trunc(if s < 0.0 then s * 32768.0 else s * 32767.0)
  }

  /** A louder input never gives a smaller sample. */
  lemma PcmSampleMonotone(x: real, y: real)
    requires x <= y
    ensures PcmSample(x) <= PcmSample(y)
  {
    var sx := if x < -1.0 then -1.0 else if x > 1.0 then 1.0 else x;
    var sy := if y < -1.0 then -1.0 else if y > 1.0 then 1.0 else y;
    assert sx <= sy;
    if sx < 0.0 && sy < 0.0 {
      assert sx * 32768.0 <= sy * 32768.0;
      TruncMonotone(sx * 32768.0, sy * 32768.0);
    } else if sx >= 0.0 && sy >= 0.0 {
      assert sx * 32767.0 <= sy * 32767.0;
      TruncMonotone(sx * 32767.0, sy * 32767.0);
    }
  }

  lemma TruncMonotone(a: real, b: real)
    requires a <= b
    ensures Trunc(a) <= Trunc(b)
  {
    if a >= 0.0 {
      FloorMonotone(a, b);
    } else if b < 0.0 {
      FloorMonotone(-b, -a);
    }
  }

  /** The 16-bit samples of every frame, one row of channels per frame. */
  function Frames(channels: seq<seq<real>>, length: nat): (g: seq<seq<int>>)
    requires forall c :: 0 <= c < |channels| ==> |channels[c]| == length
    ensures IsGrid(g, |channels|, length)
    ensures forall i, c :: 0 <= i < length && 0 <= c < |channels| ==>
              g[i][c] == PcmSample(channels[c][i]) && -0x8000 <= g[i][c] < 0x8000
  {
    seq(length, (i: int) requires 0 <= i < length => FrameSamples(channels, i))
  }

  /** The samples of frame `i`, one per channel. */
  function FrameSamples(channels: seq<seq<real>>, i: nat): (row: seq<int>)
    requires forall c :: 0 <= c < |channels| ==> i < |channels[c]|
    ensures |row| == |channels|
  {
    seq(|channels|, (c: int) requires 0 <= c < |channels| => PcmSample(channels[c][i]))
  }

  /** Little-endian 16-bit encoding of a sample stream. */
  function Pcm(xs: seq<int>): (b: seq<Byte>)
    ensures |b| == 2 * |xs|
  {
    if xs == [] then [] else Pcm(xs[..|xs| - 1]) + Le16(xs[|xs| - 1])
  }

  lemma PcmSnoc(xs: seq<int>, x: int)
    ensures Pcm(xs + [x]) == Pcm(xs) + Le16(x)
  {
    assert (xs + [x])[..|xs|] == xs;
  }

  /** Sample `k` of the stream sits at byte `2 k`. */
  lemma {:induction false} PcmAt(xs: seq<int>, k: nat)
    requires k < |xs| && -0x8000 <= xs[k] < 0x8000
    ensures ReadI16(Pcm(xs), 2 * k) == xs[k]
  {
    var init := xs[..|xs| - 1];
    var b := Pcm(xs);
    if k < |xs| - 1 {
      PcmAt(init, k);
      assert b[2 * k] == Pcm(init)[2 * k] && b[2 * k + 1] == Pcm(init)[2 * k + 1];
    } else {
      Le16RoundTrip(xs[k]);
      assert b[2 * k..2 * k + 2] == Le16(xs[k]);
    }
  }

  /** `audioBufferToWav` on a buffer of `length` frames per channel (an
      `AudioBuffer` gives every channel the same length): the header, then
      the samples frame by frame, channel by channel. */
  method AudioBufferToWav(sampleRate: nat, channels: seq<seq<real>>, length: nat)
    returns (out: seq<Byte>)
    requires forall c :: 0 <= c < |channels| ==> |channels[c]| == length
    ensures |out| == 44 + length * |channels| * 2
    ensures out[..44] == WavHeader(|channels|, sampleRate, length)
    ensures out[44..] == Pcm(Flatten(Frames(channels, length)))
  {
    var header := WavHeader(|channels|, sampleRate, length);
    var body := WriteSamples(channels, length);
    out := header + body;
    assert out[..44] == header && out[44..] == body;
  }

  /** The sample loop: from offset 44 on, one `setInt16` per channel per
      frame, two bytes each. */
  method WriteSamples(channels: seq<seq<real>>, length: nat) returns (body: seq<Byte>)
    requires forall c :: 0 <= c < |channels| ==> |channels[c]| == length
    ensures |body| == length * |channels| * 2
    ensures body == Pcm(Flatten(Frames(channels, length)))
  {
    var frames := Frames(channels, length);
    body := [];
    var i := 0;
    while i < length
      invariant 0 <= i <= length
      invariant body == Pcm(Flatten(frames[..i]))
    {
      var bytes := WriteFrame(channels, i);
      PcmAppend(Flatten(frames[..i]), frames[i]);
      FlattenSnoc(frames[..i], frames[i]);
      assert frames[..i + 1] == frames[..i] + [frames[i]];
      body := body + bytes;
      i := i + 1;
    }
    assert frames[..length] == frames;
    FlattenLength(frames, |channels|, length);
    assert length * |channels| * 2 == 2 * (length * |channels|);
  }

  /** One turn of the outer sample loop: frame `i` of every channel. */
  method WriteFrame(channels: seq<seq<real>>, i: nat) returns (bytes: seq<Byte>)
    requires forall c :: 0 <= c < |channels| ==> i < |channels[c]|
    ensures bytes == Pcm(FrameSamples(channels, i))
  {
    var row := FrameSamples(channels, i);
    bytes := [];
    var ch := 0;
    while ch < |channels|
      invariant 0 <= ch <= |channels|
      invariant bytes == Pcm(row[..ch])
    {
      var intSample := PcmSample(channels[ch][i]);
      assert row[ch] == intSample;
      assert row[..ch + 1] == row[..ch] + [intSample];
      PcmSnoc(row[..ch], intSample);
      bytes := bytes + Le16(intSample);
      ch := ch + 1;
    }
    assert row[..|channels|] == row;
  }

  lemma {:induction false} PcmAppend(xs: seq<int>, ys: seq<int>)
    ensures Pcm(xs + ys) == Pcm(xs) + Pcm(ys)
    decreases |ys|
  {
    if ys != [] {
      var init := ys[..|ys| - 1];
      assert xs + ys == (xs + init) + [ys[|ys| - 1]];
      PcmSnoc(xs + init, ys[|ys| - 1]);
      PcmAppend(xs, init);
      PcmSnoc(init, ys[|ys| - 1]);
      assert ys == init + [ys[|ys| - 1]];
    } else {
      assert xs + ys == xs;
    }
  }

  /** Each sample can be read back at its interleaved position: with the
      frames of `Frames` (frame `i`, channel `c` holding the converted
      sample of `channels[c][i]`) written behind the header, cell `c` of
      frame `i` is the 16-bit value at byte `44 + 2 (RowStart(i, w) + c)`,
      where `RowStart(i, w)` is `i * w` by `RowStartMul`. */
  lemma SampleReadBack(out: seq<Byte>, frames: seq<seq<int>>, w: nat, h: nat, i: nat, c: nat)
    requires IsGrid(frames, w, h) && i < h && c < w
    requires -0x8000 <= frames[i][c] < 0x8000
    requires |out| >= 44 && out[44..] == Pcm(Flatten(frames))
    ensures 44 + 2 * (RowStart(i, w) + c) + 2 <= |out|
    ensures ReadI16(out, 44 + 2 * (RowStart(i, w) + c)) == frames[i][c]
  {
    FlattenAt(frames, w, h, i, c);
    StreamReadBack(out, Flatten(frames), RowStart(i, w) + c);
  }

  /** Behind the 44-byte header, sample `k` of the stream reads back at
      byte `44 + 2 k`. */
  lemma StreamReadBack(out: seq<Byte>, flat: seq<int>, k: nat)
    requires |out| >= 44 && out[44..] == Pcm(flat)
    requires k < |flat| && -0x8000 <= flat[k] < 0x8000
    ensures 44 + 2 * k + 2 <= |out|
    ensures ReadI16(out, 44 + 2 * k) == flat[k]
  {
    var body := Pcm(flat);
    assert |out| == 44 + |body|;
    assert ReadI16(body, 2 * k) == flat[k] by { PcmAt(flat, k); }
    ReadAfterHeader(out, body, 2 * k);
  }

  lemma ReadAfterHeader(out: seq<Byte>, body: seq<Byte>, off: nat)
    requires |out| >= 44 && out[44..] == body && off + 2 <= |body|
    ensures ReadI16(out, 44 + off) == ReadI16(body, off)
  {
    assert out[44 + off] == body[off] && out[44 + off + 1] == body[off + 1];
  }
}
