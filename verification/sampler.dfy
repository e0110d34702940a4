/** Which source frames get converted: the browser's seek schedule in
    `extractFrames` (converter.js:225-259), the preview slider of the web
    page (app.js:236-246), and the decimation rule of the Python extractor
    (step1_extract_frames.py:27-68). Times are exact reals. */
module Sampler {
  import opened Base

  // ----- browser: seek schedule -----

  /** Frames the browser extracts: the `floor(duration * fps)` frames of the
      target-rate grid, less the trimmed start and end, never negative. */
  function FrameBudget(duration: real, fps: int, skipStart: int, skipEnd: int): (n: nat)
    ensures n == 0 <==> Floor(duration * fps as real) - skipEnd <= skipStart
    ensures n > 0 ==> skipStart + n == Floor(duration * fps as real) - skipEnd
  {
    Max(0, Floor(duration * fps as real) - skipEnd - skipStart)
  }

  /** The seek time of grid frame `i`: `i` frame intervals of `1 / fps`. */
  function SampleTime(i: int, fps: int): (t: real)
    requires fps >= 1
    ensures t * fps as real == i as real
  {
    i as real * (1.0 / fps as real)
  }

  lemma SampleTimeMonotone(i: int, j: int, fps: int)
    requires fps >= 1 && i < j
    ensures SampleTime(i, fps) < SampleTime(j, fps)
  {
    var d := 1.0 / fps as real;
    assert d > 0.0;
    assert j as real * d - i as real * d == (j - i) as real * d;
  }

  /** `extractFrames` after the video's metadata is known: the seek time of
      every sample, in request order, and the percent reported after each
      frame. `fps` has passed `validateOptions`, so it is at least 1. */
  method ExtractFrames(duration: real, fps: int, skipStart: int, skipEnd: int)
    returns (count: nat, times: seq<real>, percents: seq<int>)
    requires fps >= 1
    ensures count == FrameBudget(duration, fps, skipStart, skipEnd)
    ensures |times| == count && |percents| == count
    // sample k is grid frame skipStart + k; the last one is inside the trimmed range
    ensures forall k :: 0 <= k < count ==> times[k] * fps as real == (skipStart + k) as real
    ensures count > 0 ==> times[count - 1] * fps as real < (Floor(duration * fps as real) - skipEnd) as real
    ensures forall j, k :: 0 <= j < k < count ==> times[j] < times[k]
    // progress covers the first half of the bar and ends at its middle
    ensures forall k :: 0 <= k < count ==> 0 <= percents[k] <= 50
    ensures forall j, k :: 0 <= j < k < count ==> percents[j] <= percents[k]
    ensures count > 0 ==> percents[count - 1] == 50
  {
    var frameInterval := 1.0 / fps as real;
    var totalFrames := FrameBudget(duration, fps, skipStart, skipEnd);
    count, times, percents := totalFrames, [], [];
    var currentFrame := 0;
    while currentFrame < totalFrames
      invariant 0 <= currentFrame <= totalFrames
      invariant times == SampleTimes(skipStart, currentFrame, fps)
      invariant percents == Progresses(currentFrame, totalFrames)
    {
      var time := (skipStart + currentFrame) as real * frameInterval;
      assert time == SampleTime(skipStart + currentFrame, fps);
      times := times + [time];
      currentFrame := currentFrame + 1;
      percents := percents + [Round(currentFrame as real / totalFrames as real * 50.0)];
    }
    SampleTimesIncrease(skipStart, count, fps);
    if count > 0 {
      ProgressesRange(count);
    }
  }

  /** The seek times of grid frames `start`, `start + 1`, ... */
  function SampleTimes(start: int, n: nat, fps: int): (r: seq<real>)
    requires fps >= 1
    ensures |r| == n
  {
    if n == 0 then [] else SampleTimes(start, n - 1, fps) + [SampleTime(start + n - 1, fps)]
  }

  /** Sample `k` is grid frame `start + k`, and the samples move forward. */
  lemma {:induction false} SampleTimesIncrease(start: int, n: nat, fps: int)
    requires fps >= 1
    ensures forall k :: 0 <= k < n ==> SampleTimes(start, n, fps)[k] == SampleTime(start + k, fps)
    ensures forall j, k :: 0 <= j < k < n ==> SampleTimes(start, n, fps)[j] < SampleTimes(start, n, fps)[k]
  {
    if n > 0 {
      SampleTimesIncrease(start, n - 1, fps);
      var r := SampleTimes(start, n, fps);
      assert r == SampleTimes(start, n - 1, fps) + [SampleTime(start + n - 1, fps)];
      forall j | 0 <= j < n - 1
        ensures r[j] < r[n - 1]
      {
        SampleTimeMonotone(start + j, start + n - 1, fps);
      }
    }
  }

  /** The percents reported after each of the first `n` of `total` frames. */
  function Progresses(n: nat, total: nat): (r: seq<int>)
    requires n <= total
    ensures |r| == n
  {
    if n == 0 then [] else Progresses(n - 1, total) + [Progress(n, total)]
  }

  /** The percents reported over a whole extraction stay in the first half
      of the bar, never go back, and end at its middle. */
  lemma {:induction false} ProgressesRange(total: nat)
    requires total > 0
    ensures forall k :: 0 <= k < total ==> 0 <= Progresses(total, total)[k] <= 50
    ensures forall j, k :: 0 <= j < k < total ==> Progresses(total, total)[j] <= Progresses(total, total)[k]
    ensures Progresses(total, total)[total - 1] == 50
  {
    ProgressesAt(total, total);
    ProgressEnds(total);
    var r := Progresses(total, total);
    forall j, k | 0 <= j < k < total
      ensures r[j] <= r[k]
    {
      ProgressMonotone(j + 1, k + 1, total);
    }
    forall k | 0 <= k < total
      ensures 0 <= r[k] <= 50
    {
      ProgressMonotone(k + 1, total, total);
      ProgressMonotone(0, k + 1, total);
    }
  }

  lemma {:induction false} ProgressesAt(n: nat, total: nat)
    requires 0 < total && n <= total
    ensures forall k :: 0 <= k < n ==> Progresses(n, total)[k] == Progress(k + 1, total)
  {
    if n > 0 {
      ProgressesAt(n - 1, total);
    }
  }

  /** The percent reported once `done` of `total` frames are extracted. */
  function Progress(done: nat, total: nat): int
    requires total > 0
  {
    Round(done as real / total as real * 50.0)
  }

  lemma ProgressMonotone(a: nat, b: nat, total: nat)
    requires a <= b <= total && total > 0
    ensures Progress(a, total) <= Progress(b, total)
  {
    RealDivMonotone(a as real, b as real, total as real);
    FloorMonotone(a as real / total as real * 50.0 + 0.5, b as real / total as real * 50.0 + 0.5);
  }

  lemma ProgressEnds(total: nat)
    requires total > 0
    ensures Progress(0, total) == 0 && Progress(total, total) == 50
  {
    var t := total as real;
    assert t / t == 1.0;
  }

  lemma RealDivMonotone(a: real, b: real, t: real)
    requires a <= b && t > 0.0
    ensures a / t <= b / t
  {
    assert b / t - a / t == (b - a) / t;
  }

  // ----- browser: preview slider -----

  /** The slider after `updateFrameSliderRange`: its maximum, its value,
      and the preview frame it selects (None when that index has no frame). */
  datatype Slider = Slider(max: nat, value: nat, source: Option<nat>)

  /** `updateFrameSliderRange` with `total` preview frames. A range input
      never holds a value below its minimum 0, so `value` is a `nat`. With
      no preview frames the slider is left as it was. */
  function SliderRange(total: nat, skipStart: int, skipEnd: int, value: nat, old_max: nat): (s: Slider)
    ensures total == 0 ==> s == Slider(old_max, value, None)
    ensures total > 0 ==> s.max == Max(0, Max(0, total - skipStart - skipEnd) - 1)
    ensures total > 0 ==> s.value <= s.max && (value <= s.max ==> s.value == value)
    ensures total > 0 && value > s.max ==> s.value == s.max
    ensures s.source.Some? <==>
              total > 0 && 0 <= skipStart + s.value < total
    ensures s.source.Some? ==> s.source.value == skipStart + s.value
  {
    if total == 0 then Slider(old_max, value, None)
    else
      var effective := Max(0, total - skipStart - skipEnd);
      var max := Max(0, effective - 1);
      var v := Min(value, max);
      var actual := skipStart + v;
      Slider(max, v, if 0 <= actual < total then Some(actual) else None)
  }

  /** With non-negative trims and some frames left after trimming, every
      slider position previews a frame inside the trimmed range, and every
      frame of that range is reachable. */
  lemma SliderStaysInTrimmedRange(total: nat, skipStart: nat, skipEnd: nat, value: nat, old_max: nat)
    requires skipStart + skipEnd < total
    ensures var s := SliderRange(total, skipStart, skipEnd, value, old_max);
            s.source.Some? && skipStart <= s.source.value < total - skipEnd
    ensures forall v: nat :: v < total - skipStart - skipEnd ==>
              SliderRange(total, skipStart, skipEnd, v, old_max).source == Some(skipStart + v)
  {
  }

  // ----- Python: decimation -----

  /** `next_frame_to_extract` after `k` frames are written: `k` intervals
      added up from 0. */
  function Target(k: nat, interval: real): real {
    if k == 0 then 0.0 else Target(k - 1, interval) + interval
  }

  /** The accumulated target is `k * interval`. */
  lemma {:induction false} TargetIsProduct(k: nat, interval: real)
    ensures Target(k, interval) == k as real * interval
  {
    if k > 0 {
      TargetIsProduct(k - 1, interval);
      assert (k - 1) as real * interval + interval == k as real * interval;
    }
  }

  /** Below an interval of one frame the target never runs ahead of `k`. */
  lemma {:induction false} TargetBelowCount(k: nat, interval: real)
    requires interval < 1.0
    ensures Target(k, interval) <= k as real
  {
    if k > 0 {
      TargetBelowCount(k - 1, interval);
    }
  }

  /** The source frame that becomes the k-th output frame when
      `frame_interval` is `interval`: the first frame at or after the k-th
      target, and never before frame `k`. */
  function Pick(k: nat, interval: real): (i: nat)
    ensures i >= k && i as real >= Target(k, interval)
    ensures i == k || (i as real - 1.0 < Target(k, interval))
  {
    Max(k, Ceil(Target(k, interval)))
  }

  /** Picks are strictly increasing, whatever the interval. */
  lemma PickStep(k: nat, interval: real)
    ensures Pick(k + 1, interval) >= Pick(k, interval) + 1
  {
    var a, b := Target(k, interval), Target(k + 1, interval);
    if interval >= 1.0 {
      assert Ceil(b) >= Ceil(a) + 1;
    } else {
      TargetBelowCount(k, interval);
    }
  }

  /** The errors `extract_frames` raises before reading any frame. */
  datatype ExtractError = CouldNotOpen(path: string) | ZeroDivision

  /** `extract_frames` on a capture that yields `framesRead` frames: the
      indices of the frames written and their file names. The capture's
      frame rate and the target rate are parameters; OpenCV I/O is not
      modelled. */
  method PyExtractFrames(path: string, isOpened: bool, originalFps: real, targetFps: int, framesRead: nat)
    returns (r: Result<(seq<nat>, seq<string>), ExtractError>)
    ensures !isOpened ==> r == Err(CouldNotOpen(path))
    ensures isOpened && targetFps == 0 ==> r == Err(ZeroDivision)
    ensures r.Ok? <==> isOpened && targetFps != 0
    ensures r.Ok? ==>
              var (picked, names) := r.value;
              var interval := originalFps / targetFps as real;
              // at most one frame written per frame read, in read order
              && |picked| <= framesRead
              && (forall j, k :: 0 <= j < k < |picked| ==> picked[j] < picked[k])
              && (forall k :: 0 <= k < |picked| ==> picked[k] < framesRead)
              // the k-th written frame is the k-th pick, and no pick is missed
              && (forall k :: 0 <= k < |picked| ==> picked[k] == Pick(k, interval))
              && Pick(|picked|, interval) >= framesRead
              // frame_000000.png, frame_000001.png, ...
              && names == FrameNames(|picked|)
  {
    if !isOpened {
      return Err(CouldNotOpen(path));
    }
    if targetFps == 0 {
      return Err(ZeroDivision);
    }
    var picked, names := Decimate(originalFps / targetFps as real, framesRead);
    r := Ok((picked, names));
  }

  /** The read loop of `extract_frames`: frame `frameCount` is written when
      it has reached `next_frame_to_extract`, which then moves on by one
      interval. */
  method Decimate(frameInterval: real, framesRead: nat) returns (picked: seq<nat>, names: seq<string>)
    ensures |picked| <= framesRead
    ensures forall j, k :: 0 <= j < k < |picked| ==> picked[j] < picked[k]
    ensures forall k :: 0 <= k < |picked| ==> picked[k] < framesRead
    ensures forall k :: 0 <= k < |picked| ==> picked[k] == Pick(k, frameInterval)
    ensures Pick(|picked|, frameInterval) >= framesRead
    ensures framesRead > 0 ==> |picked| > 0 && picked[0] == 0
    ensures names == FrameNames(|picked|)
  {
    var frameCount := 0;
    var extractedCount := 0;
    var next := 0.0;
    picked, names := [], [];
    while frameCount < framesRead
      invariant 0 <= extractedCount <= frameCount <= framesRead
      invariant picked == Picks(extractedCount, frameInterval)
      invariant names == FrameNames(extractedCount)
      invariant next == Target(extractedCount, frameInterval)
      invariant extractedCount > 0 ==> Pick(extractedCount - 1, frameInterval) < frameCount
      invariant Pick(extractedCount, frameInterval) >= frameCount
    {
      if frameCount as real >= next {
        PickAt(extractedCount, frameInterval, frameCount);
        names := names + [FrameName(extractedCount)];
        picked := picked + [frameCount];
        extractedCount := extractedCount + 1;
        next := next + frameInterval;
        PickStep(extractedCount - 1, frameInterval);
      }
      frameCount := frameCount + 1;
    }
    PicksBelow(extractedCount, frameInterval, framesRead);
  }

  /** The first `n` picks, in order. */
  function Picks(n: nat, interval: real): (r: seq<nat>)
    ensures |r| == n
  {
    if n == 0 then [] else Picks(n - 1, interval) + [Pick(n - 1, interval)]
  }

  /** The first `n` picks are the picks, strictly increasing, and all below
      any bound the last one is below. */
  lemma {:induction false} PicksBelow(n: nat, interval: real, bound: nat)
    requires n > 0 ==> Pick(n - 1, interval) < bound
    ensures forall k :: 0 <= k < n ==> Picks(n, interval)[k] == Pick(k, interval)
    ensures forall j, k :: 0 <= j < k < n ==> Picks(n, interval)[j] < Picks(n, interval)[k]
    ensures forall k :: 0 <= k < n ==> Picks(n, interval)[k] < bound
  {
    if n > 0 {
      if n > 1 {
        PickStep(n - 2, interval);
      }
      PicksBelow(n - 1, interval, Pick(n - 1, interval));
      forall j | 0 <= j < n - 1
        ensures Pick(j, interval) < Pick(n - 1, interval)
      {
        PicksIncrease(j, n - 1, interval);
      }
    }
  }

  /** A frame at or past both `k` and `k * interval`, and not past the k-th
      pick, is the k-th pick. */
  lemma PickAt(k: nat, interval: real, f: nat)
    requires f >= k && f as real >= Target(k, interval) && Pick(k, interval) >= f
    ensures Pick(k, interval) == f
  {
  }

  lemma {:induction false} PicksIncrease(j: nat, k: nat, interval: real)
    requires j < k
    ensures Pick(j, interval) < Pick(k, interval)
    decreases k - j
  {
    PickStep(j, interval);
    if j + 1 < k {
      PicksIncrease(j + 1, k, interval);
    }
  }

  /** With the target rate at most the source rate, the k-th written frame
      is exactly the first source frame at or after `k * interval`. */
  lemma PickIsFirstAtOrAfter(k: nat, interval: real)
    requires interval >= 1.0
    ensures Pick(k, interval) == Ceil(k as real * interval)
  {
    TargetIsProduct(k, interval);
    assert k as real * interval >= k as real * 1.0;
  }

  // ----- output file names -----

  /** `f"{n:06d}"`: at least six digits, zero-padded on the left. */
  function Pad6(n: nat): (s: string)
    ensures |s| >= 6
    ensures |Digits(n)| <= 6 ==> |s| == 6
  {
    Repeat('0', 6 - Min(6, |Digits(n)|)) + Digits(n)
  }

  function FrameName(k: nat): string {
    "frame_" + Pad6(k) + ".png"
  }

  /** The names of the first `n` frames written, in order. */
  function FrameNames(n: nat): (r: seq<string>)
    ensures |r| == n
    ensures forall k :: 0 <= k < n ==> r[k] == FrameName(k)
  {
    if n == 0 then [] else FrameNames(n - 1) + [FrameName(n - 1)]
  }

  /** Reading the padded number back gives the frame index. */
  lemma ParsePad6(n: nat)
    ensures ParseDigits(Pad6(n)) == n
  {
    ParseLeadingZeros(6 - Min(6, |Digits(n)|), Digits(n));
    ParseDigitsOfDigits(n);
  }

  /** Distinct output frames get distinct file names, so no frame file
      overwrites another. */
  lemma FrameNamesDistinct(j: nat, k: nat)
    requires j != k
    ensures FrameName(j) != FrameName(k)
  {
    if FrameName(j) == FrameName(k) {
      var a, b := FrameName(j), FrameName(k);
      assert |Pad6(j)| == |a| - 10 == |Pad6(k)|;
      assert Pad6(j) == a[6..|a| - 4];
      assert Pad6(k) == b[6..|b| - 4];
      ParsePad6(j);
      ParsePad6(k);
    }
  }
}
