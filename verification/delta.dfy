/** The binary export `downloadNeilFiles` (app.js:617-696): frame 0 is stored
    as it is, every later frame as the byte-wise XOR with its raw
    predecessor (app.js:633-650), with a metadata record (app.js:621-627)
    and frame 0 again as a separate artifact (app.js:684). The repository has
    no decoder; `DecodeDelta` is the inverse this model supplies. The gzip
    layer is left out. */
module Delta {
  import opened Base
  import opened JsonValue
  import opened Rle

  function Pow2(k: nat): (p: nat)
    ensures p >= 1
  {
    if k == 0 then 1 else 2 * Pow2(k - 1)
  }

  /** Bitwise exclusive or of two naturals, bit by bit from the lowest. */
  function XorNat(a: nat, b: nat): nat
    decreases a + b
  {
    if a == 0 && b == 0 then 0 else 2 * XorNat(a / 2, b / 2) + (a % 2 + b % 2) % 2
  }

  lemma XorUnfold(a: nat, b: nat)
    ensures XorNat(a, b) == 2 * XorNat(a / 2, b / 2) + (a % 2 + b % 2) % 2
  {
  }

  /** XOR of two `k`-bit values is a `k`-bit value. */
  lemma {:induction false} XorBelow(a: nat, b: nat, k: nat)
    requires a < Pow2(k) && b < Pow2(k)
    ensures XorNat(a, b) < Pow2(k)
  {
    if k > 0 && (a > 0 || b > 0) {
      XorBelow(a / 2, b / 2, k - 1);
    }
  }

  /** XOR-ing twice with the same value restores the first operand. */
  lemma {:induction false} XorCancel(a: nat, b: nat)
    ensures XorNat(XorNat(a, b), b) == a
    decreases a + b
  {
    if a > 0 || b > 0 {
      var c := XorNat(a, b);
      XorHalves(a, b);
      XorUnfold(c, b);
      XorCancel(a / 2, b / 2);
      BitCancel(a % 2, b % 2);
      assert XorNat(c / 2, b / 2) == a / 2;
      assert (c % 2 + b % 2) % 2 == a % 2;
    }
  }

  /** The high bits and the low bit of an XOR. */
  lemma XorHalves(a: nat, b: nat)
    ensures XorNat(a, b) / 2 == XorNat(a / 2, b / 2)
    ensures XorNat(a, b) % 2 == (a % 2 + b % 2) % 2
  {
    var q, bit := XorNat(a / 2, b / 2), (a % 2 + b % 2) % 2;
    XorUnfold(a, b);
    DivModUnique(XorNat(a, b), 2, q, bit);
  }

  /** Adding the same bit twice modulo 2 restores the first bit. */
  lemma BitCancel(x: int, y: int)
    requires 0 <= x < 2 && 0 <= y < 2
    ensures ((x + y) % 2 + y) % 2 == x
  {
    if x == 1 && y == 1 {
      assert (x + y) % 2 == 0;
    }
  }

  /** `a ^ b` on two bytes, as the encoder stores it into a `Uint8Array`. */
  function Xor(a: Byte, b: Byte): (c: Byte)
    ensures XorNat(c, b) == a
  {
    XorBelow(a, b, 8);
    XorCancel(a, b);
    XorNat(a, b)
  }

  function XorSeq(a: seq<Byte>, b: seq<Byte>): (c: seq<Byte>)
    requires |a| == |b|
    ensures |c| == |a|
    ensures forall i :: 0 <= i < |a| ==> c[i] == Xor(a[i], b[i])
  {
    seq(|a|, (i: int) requires 0 <= i < |a| => Xor(a[i], b[i]))
  }

  lemma XorSeqCancel(a: seq<Byte>, b: seq<Byte>)
    requires |a| == |b|
    ensures XorSeq(XorSeq(a, b), b) == a
  {
  }

  /** Every frame holds `bytesPerFrame` bytes. */
  predicate Uniform(frames: seq<seq<Byte>>, bytesPerFrame: nat) {
    forall f :: 0 <= f < |frames| ==> |frames[f]| == bytesPerFrame
  }

  /** The encoded frames: frame 0 raw, frame `f` XOR-ed with raw frame `f - 1`. */
  function DeltaFrames(frames: seq<seq<Byte>>, bytesPerFrame: nat): (d: seq<seq<Byte>>)
    requires Uniform(frames, bytesPerFrame)
    ensures |d| == |frames| && Uniform(d, bytesPerFrame)
    ensures |frames| > 0 ==> d[0] == frames[0]
    ensures forall f :: 1 <= f < |frames| ==> d[f] == XorSeq(frames[f], frames[f - 1])
  {
    seq(|frames|, (f: int) requires 0 <= f < |frames| =>
      if f == 0 then frames[0] else XorSeq(frames[f], frames[f - 1]))
  }

  /** Sequential decoding: frame 0 is taken as it is, each later frame is
      XOR-ed with the frame decoded before it. */
  function DecodeDelta(deltas: seq<seq<Byte>>, bytesPerFrame: nat): (raw: seq<seq<Byte>>)
    requires Uniform(deltas, bytesPerFrame)
    ensures |raw| == |deltas| && Uniform(raw, bytesPerFrame)
  {
    if |deltas| <= 1 then deltas
    else
      var prev := DecodeDelta(deltas[..|deltas| - 1], bytesPerFrame);
      prev + [XorSeq(deltas[|deltas| - 1], prev[|prev| - 1])]
  }

  /** Decoding the encoded frames reconstructs every raw frame. */
  lemma {:induction false} DeltaRoundTrip(frames: seq<seq<Byte>>, bytesPerFrame: nat)
    requires Uniform(frames, bytesPerFrame)
    ensures DecodeDelta(DeltaFrames(frames, bytesPerFrame), bytesPerFrame) == frames
  {
    var n := |frames|;
    if n > 1 {
      var d := DeltaFrames(frames, bytesPerFrame);
      var init := frames[..n - 1];
      DeltaFramesPrefix(frames, bytesPerFrame);
      DeltaRoundTrip(init, bytesPerFrame);
      assert DecodeDelta(d[..n - 1], bytesPerFrame) == init;
      XorSeqCancel(frames[n - 1], frames[n - 2]);
      assert XorSeq(d[n - 1], init[n - 2]) == frames[n - 1];
      assert frames == init + [frames[n - 1]];
    }
  }

  /** Encoding all but the last frame encodes the same prefix. */
  lemma DeltaFramesPrefix(frames: seq<seq<Byte>>, bytesPerFrame: nat)
    requires |frames| > 0 && Uniform(frames, bytesPerFrame)
    ensures DeltaFrames(frames[..|frames| - 1], bytesPerFrame) == DeltaFrames(frames, bytesPerFrame)[..|frames| - 1]
  {
    var init := frames[..|frames| - 1];
    var a, b := DeltaFrames(init, bytesPerFrame), DeltaFrames(frames, bytesPerFrame)[..|frames| - 1];
    forall f | 0 <= f < |init|
      ensures a[f] == b[f]
    {
      if f > 0 {
        assert init[f] == frames[f] && init[f - 1] == frames[f - 1];
      }
    }
  }

  /** The inner loop of the encoder: `currFrame[i] ^ prevFrame[i]` for
      every byte, and XOR-ing the result with `prev` gives `curr` back. */
  method XorFrame(curr: seq<Byte>, prev: seq<Byte>) returns (chunk: seq<Byte>)
    requires |curr| == |prev|
    ensures chunk == XorSeq(curr, prev)
    ensures XorSeq(chunk, prev) == curr
  {
    chunk := [];
    var i := 0;
    while i < |curr|
      invariant 0 <= i <= |curr|
      invariant |chunk| == i
      invariant forall j :: 0 <= j < i ==> chunk[j] == Xor(curr[j], prev[j])
    {
      chunk := chunk + [Xor(curr[i], prev[i])];
      i := i + 1;
    }
    XorSeqCancel(curr, prev);
  }

  /** The encoder's loops: the output buffer holds frame 0, then each
      `currFrame[i] ^ prevFrame[i]` in order. */
  method EncodeDelta(frames: seq<seq<Byte>>, bytesPerFrame: nat) returns (out: seq<Byte>)
    requires |frames| > 0 && Uniform(frames, bytesPerFrame)
    ensures out == Flatten(DeltaFrames(frames, bytesPerFrame))
  {
    var d := DeltaFrames(frames, bytesPerFrame);
    out := frames[0];
    assert Flatten(d[..1]) == frames[0] by {
      assert d[..1] == [frames[0]];
      assert Flatten([frames[0]]) == frames[0] + Flatten([]);
    }
    var f := 1;
    while f < |frames|
      invariant 1 <= f <= |frames|
      invariant out == Flatten(d[..f])
    {
      var chunk := XorFrame(frames[f], frames[f - 1]);
      assert chunk == d[f];
      FlattenSnoc(d[..f], chunk);
      assert d[..f + 1] == d[..f] + [d[f]];
      out := out + chunk;
      f := f + 1;
    }
    assert d[..f] == d;
  }

  /** Frame `f` of an encoded body of `bytesPerFrame`-byte frames. */
  function Chunk(body: seq<Byte>, f: nat, bytesPerFrame: nat): seq<Byte>
    requires RowStart(f, bytesPerFrame) + bytesPerFrame <= |body|
  {
    body[RowStart(f, bytesPerFrame)..RowStart(f, bytesPerFrame) + bytesPerFrame]
  }

  /** The encoded body is `frameCount * bytesPerFrame` bytes and its `f`-th
      chunk is encoded frame `f`; the first chunk is raw frame 0. */
  lemma BodyLayout(frames: seq<seq<Byte>>, bytesPerFrame: nat)
    requires |frames| > 0 && Uniform(frames, bytesPerFrame)
    ensures |Flatten(DeltaFrames(frames, bytesPerFrame))| == |frames| * bytesPerFrame
    ensures forall f :: 0 <= f < |frames| ==>
              RowStart(f, bytesPerFrame) + bytesPerFrame <= |Flatten(DeltaFrames(frames, bytesPerFrame))|
              && Chunk(Flatten(DeltaFrames(frames, bytesPerFrame)), f, bytesPerFrame)
                 == DeltaFrames(frames, bytesPerFrame)[f]
    ensures Chunk(Flatten(DeltaFrames(frames, bytesPerFrame)), 0, bytesPerFrame) == frames[0]
  {
    var d := DeltaFrames(frames, bytesPerFrame);
    assert IsGrid(d, bytesPerFrame, |frames|);
    FlattenLength(d, bytesPerFrame, |frames|);
    forall f | 0 <= f < |frames|
      ensures RowStart(f, bytesPerFrame) + bytesPerFrame <= |Flatten(d)|
      ensures Chunk(Flatten(d), f, bytesPerFrame) == d[f]
    {
      FlattenRow(d, bytesPerFrame, |frames|, f);
    }
  }

  /** The `.meta.json` record. */
  function DeltaMetadata(width: nat, height: nat, fps: real, frameCount: nat): Json {
    JObj(map[
      "width" := JNum(width as real), "height" := JNum(height as real), "fps" := JNum(fps),
      "frameCount" := JNum(frameCount as real), "format" := JStr("delta")])
  }

  /** The three downloads, before compression. */
  datatype NeilFiles = NeilFiles(metadata: Json, body: seq<Byte>, firstFrame: seq<Byte>)

  /** `downloadNeilFiles`: with no frames, `deltaData.set(undefined)` throws. */
  method NeilExport(width: nat, height: nat, fps: real, rgbFrames: seq<seq<Byte>>) returns (r: Result<NeilFiles, string>)
    requires Uniform(rgbFrames, width * height * 3)
    ensures r.Err? <==> |rgbFrames| == 0
    ensures r.Ok? ==>
              && r.value.metadata == DeltaMetadata(width, height, fps, |rgbFrames|)
              && r.value.firstFrame == rgbFrames[0]
              && |r.value.body| == |rgbFrames| * (width * height * 3)
              && DecodeBody(r.value.body, |rgbFrames|, width * height * 3) == rgbFrames
  {
    if |rgbFrames| == 0 {
      return Err("TypeError: cannot convert undefined to object");
    }
    var bytesPerFrame := width * height * 3;
    var body := EncodeDelta(rgbFrames, bytesPerFrame);
    BodyLayout(rgbFrames, bytesPerFrame);
    DecodeBodyOfExport(rgbFrames, bytesPerFrame);
    r := Ok(NeilFiles(DeltaMetadata(width, height, fps, |rgbFrames|), body, rgbFrames[0]));
  }

  /** A reader of the `.neil` body: cut it into frames, then decode. */
  function DecodeBody(body: seq<Byte>, frameCount: nat, bytesPerFrame: nat): seq<seq<Byte>>
    requires |body| == frameCount * bytesPerFrame
  {
    var chunks := seq(frameCount, (f: int) requires 0 <= f < frameCount =>
      ChunkOf(body, f, frameCount, bytesPerFrame));
    DecodeDelta(chunks, bytesPerFrame)
  }

  function ChunkOf(body: seq<Byte>, f: nat, frameCount: nat, bytesPerFrame: nat): (c: seq<Byte>)
    requires |body| == frameCount * bytesPerFrame && f < frameCount
    ensures |c| == bytesPerFrame
  {
    MulMonotone(f + 1, frameCount, bytesPerFrame);
    RowStartMul(f + 1, bytesPerFrame);
    assert RowStart(f + 1, bytesPerFrame) == RowStart(f, bytesPerFrame) + bytesPerFrame;
    Chunk(body, f, bytesPerFrame)
  }

  lemma DecodeBodyOfExport(frames: seq<seq<Byte>>, bytesPerFrame: nat)
    requires |frames| > 0 && Uniform(frames, bytesPerFrame)
    ensures |Flatten(DeltaFrames(frames, bytesPerFrame))| == |frames| * bytesPerFrame
    ensures DecodeBody(Flatten(DeltaFrames(frames, bytesPerFrame)), |frames|, bytesPerFrame) == frames
  {
    var d := DeltaFrames(frames, bytesPerFrame);
    BodyLayout(frames, bytesPerFrame);
    var body := Flatten(d);
    var chunks := seq(|frames|, (f: int) requires 0 <= f < |frames| => ChunkOf(body, f, |frames|, bytesPerFrame));
    assert chunks == d;
    DeltaRoundTrip(frames, bytesPerFrame);
  }

  lemma XorExamples()
    ensures XorNat(15, 10) == 5 && XorNat(20, 20) == 0 && XorNat(25, 30) == 7
  {
    assert XorNat(0, 0) == 0;
    assert XorNat(1, 1) == 0;
    assert XorNat(3, 2) == 1;
    assert XorNat(7, 5) == 2;
    assert XorNat(2, 2) == 0;
    assert XorNat(5, 5) == 0;
    assert XorNat(10, 10) == 0;
    assert XorNat(3, 3) == 0;
    assert XorNat(6, 7) == 1;
    assert XorNat(12, 15) == 3;
  }

  /** `raw0 = [10, 20, 30]`, `raw1 = [15, 20, 25]` encode to `[5, 0, 7]` for
      frame 1, and decoding gives `raw1` back. */
  lemma DeltaExample()
    ensures var d := DeltaFrames([[10, 20, 30], [15, 20, 25]], 3);
            d[1] == [5, 0, 7] && DecodeDelta(d, 3) == [[10, 20, 30], [15, 20, 25]]
  {
    var raw: seq<seq<Byte>> := [[10, 20, 30], [15, 20, 25]];
    XorExamples();
    var x := XorSeq(raw[1], raw[0]);
    assert x[0] == 5 && x[1] == 0 && x[2] == 7;
    assert x == [5, 0, 7];
    DeltaRoundTrip(raw, 3);
  }
}
