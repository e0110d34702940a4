/** The player page's playback engine (player.js:19-25, 319-376, 384-484,
    514-541): a small state machine over the pre-rendered frames with a
    drift-corrected clock. `performance.now()` is the `now` parameter;
    scheduling a `requestAnimationFrame` callback is the `pending` flag. */
module Playback {
  import opened Base

  /** The page's playback variables. `frames` is `renderedFrames.length`,
      `fps` the loaded metadata's rate, `timeline` the seek bar's value. */
  datatype Player = Player(
    loaded: bool, frames: nat, fps: real, current: int, timeline: int,
    playing: bool, pending: bool, lastTime: real)

  /** What every reachable state satisfies: once a file is loaded the
      current frame exists and the seek bar shows it; a playing player has
      a file and an animation callback scheduled. */
  predicate Valid(p: Player) {
    && (p.loaded ==> p.frames >= 1 && p.fps > 0.0 && 0 <= p.current < p.frames && p.timeline == p.current)
    && (p.playing ==> p.loaded && p.pending)
  }

  /** The state when the page opens. */
  function Init(): (p: Player)
    ensures Valid(p) && !p.loaded && !p.playing
  {
    Player(false, 0, 0.0, 0, 0, false, false, 0.0)
  }

  /** `showFrame`: indices outside `[0, frames)` are ignored. */
  function ShowFrame(p: Player, index: int): (r: Player)
    ensures 0 <= index < p.frames ==> r == p.(current := index, timeline := index)
    ensures !(0 <= index < p.frames) ==> r == p
  {
    if index < 0 || index >= p.frames then p
    else p.(current := index, timeline := index)
  }

  /** `pause`: stop and cancel the pending callback. */
  function Pause(p: Player): (r: Player)
    ensures !r.playing && !r.pending
    ensures r.current == p.current && r.timeline == p.timeline && r.loaded == p.loaded
    ensures Valid(p) ==> Valid(r)
  {
    p.(playing := false, pending := false)
  }

  /** JavaScript's `%` on numbers: the remainder of truncated division. */
  function JsRem(x: real, d: real): real
    requires d != 0.0
  {
    x - d * Trunc(x / d) as real
  }

  /** Milliseconds per frame. */
  function Period(p: Player): real
    requires p.fps > 0.0
  {
    1000.0 / p.fps
  }

  /** Whole periods in `elapsed` milliseconds. */
  function Periods(elapsed: real, period: real): int
    requires period > 0.0
  {
    Floor(elapsed / period)
  }

  /** The clock after a callback at `now`: when a whole period has passed,
      `now` less the remainder of the elapsed time, otherwise unchanged. */
  function Tick(lastTime: real, now: real, period: real): real
    requires period > 0.0
  {
    var elapsed := now - lastTime;
    if elapsed >= period then now - JsRem(elapsed, period) else lastTime
  }

  /** `animate` called back at time `now`. */
  function Animate(p: Player, now: real): (r: Player)
    requires Valid(p)
    ensures Valid(r)
    ensures r.playing == p.playing && r.loaded == p.loaded && r.frames == p.frames && r.fps == p.fps
    ensures !p.playing ==> r == p
    ensures p.playing ==> r.pending && r.lastTime == Tick(p.lastTime, now, Period(p))
    // before a whole period has passed nothing moves
    ensures p.playing && now - p.lastTime < Period(p) ==>
              r.current == p.current && r.lastTime == p.lastTime
    // otherwise it advances by the whole periods elapsed, jumping to frame 0
    // (not wrapping around) past the end, and the clock moves by exactly
    // those periods
    ensures p.playing && now - p.lastTime >= Period(p) ==>
              && Periods(now - p.lastTime, Period(p)) >= 1
              && r.current == (if p.current + Periods(now - p.lastTime, Period(p)) < p.frames
                               then p.current + Periods(now - p.lastTime, Period(p)) else 0)
              && r.lastTime == p.lastTime + Periods(now - p.lastTime, Period(p)) as real * Period(p)
              && now - Period(p) < r.lastTime <= now
  {
    if !p.playing then p
    else
      var period := Period(p);
      var elapsed := now - p.lastTime;
      if elapsed >= period then
        var framesToAdvance := Periods(elapsed, period);
        var nextFrame := if p.current + framesToAdvance >= p.frames then 0 else p.current + framesToAdvance;
        TickAfterPeriod(p.lastTime, now, period);
        ShowFrame(p, nextFrame).(lastTime := Tick(p.lastTime, now, period), pending := true)
      else
        p.(pending := true)
  }

  /** Once a whole period has passed, the clock moves by the whole periods
      elapsed and lands within one period of `now`. */
  lemma TickAfterPeriod(lastTime: real, now: real, period: real)
    requires 0.0 < period <= now - lastTime
    ensures Periods(now - lastTime, period) >= 1
    ensures Tick(lastTime, now, period) == lastTime + Periods(now - lastTime, period) as real * period
    ensures now - period < Tick(lastTime, now, period) <= now
  {
    ClockStep(now - lastTime, period);
  }

  /** For `elapsed >= period > 0`, the remainder is what is left after the
      whole periods, and it is less than one period. */
  lemma ClockStep(elapsed: real, period: real)
    requires 0.0 < period <= elapsed
    ensures Periods(elapsed, period) >= 1
    ensures JsRem(elapsed, period) == elapsed - Periods(elapsed, period) as real * period
    ensures 0.0 <= JsRem(elapsed, period) < period
  {
    var q := elapsed / period;
    assert q >= 1.0;
    assert Trunc(q) == Floor(q);
    PeriodsBracket(elapsed, period);
  }

  /** The whole periods in a non-negative span fit in it, with less than one
      period to spare. */
  lemma PeriodsBracket(elapsed: real, period: real)
    requires 0.0 < period && 0.0 <= elapsed
    ensures Periods(elapsed, period) >= 0
    ensures Periods(elapsed, period) as real * period <= elapsed
    ensures elapsed < Periods(elapsed, period) as real * period + period
  {
    var q := elapsed / period;
    var k := Floor(q);
    DivMul(elapsed, period);
    RealMulLe(k as real, q, period);
    assert q < k as real + 1.0;
    RealMulLt(q, k as real + 1.0, period);
    assert elapsed < (k as real + 1.0) * period;
    MulSucc(k as real, period);
    assert elapsed < k as real * period + period;
  }

  /** A count of periods that brackets the span is its count of periods. */
  lemma PeriodsUnique(elapsed: real, period: real, k: int)
    requires 0.0 < period
    requires k as real * period <= elapsed < k as real * period + period
    ensures Periods(elapsed, period) == k
  {
    var q := elapsed / period;
    DivMul(elapsed, period);
    if q < k as real {
      RealMulLt(q, k as real, period);
    }
    if q >= k as real + 1.0 {
      RealMulLe(k as real + 1.0, q, period);
      MulSucc(k as real, period);
    }
  }

  lemma DivMul(x: real, d: real)
    requires d != 0.0
    ensures (x / d) * d == x
  {
  }

  lemma MulAdd(a: int, b: int, c: real)
    ensures (a + b) as real * c == a as real * c + b as real * c
  {
  }

  lemma MulSucc(a: real, c: real)
    ensures (a + 1.0) * c == a * c + c
  {
  }

  lemma RealMulLe(a: real, b: real, c: real)
    requires a <= b && c > 0.0
    ensures a * c <= b * c
  {
  }

  lemma RealMulLt(a: real, b: real, c: real)
    requires a < b && c > 0.0
    ensures a * c < b * c
  {
  }

  lemma FloorShift(x: real, n: int)
    ensures Floor(x + n as real) == Floor(x) + n
  {
  }

  /** Counting the periods of a span in two steps, the second from where
      the first left the clock after `k` periods, counts the same periods as
      one step. */
  lemma PeriodsAdd(e: real, period: real, k: int)
    requires 0.0 < period
    ensures k + Periods(e - k as real * period, period) == Periods(e, period)
  {
    DivSub(e, k as real, period);
    FloorSplit(e / period, (e - k as real * period) / period, k);
  }

  lemma FloorSplit(y: real, z: real, k: int)
    requires z == y - k as real
    ensures k + Floor(z) == Floor(y)
  {
    FloorShift(z, k);
  }

  lemma DivSub(e: real, k: real, d: real)
    requires d != 0.0
    ensures (e - k * d) / d == e / d - k
  {
  }

  /** Where one callback leaves the clock, whether or not a period has
      passed: moved on by the whole periods elapsed, never past `now`. */
  lemma TickClock(lastTime: real, now: real, period: real)
    requires 0.0 < period && lastTime <= now
    ensures Tick(lastTime, now, period) == lastTime + Periods(now - lastTime, period) as real * period
    ensures lastTime <= Tick(lastTime, now, period) <= now
  {
    var e := now - lastTime;
    PeriodsBracket(e, period);
    if e < period {
      assert e / period < 1.0 by { RealMulLt(e / period, 1.0, period); }
      assert Periods(e, period) == 0;
    } else {
      ClockStep(e, period);
    }
  }

  /** Two callbacks at `t1 <= t2` leave the clock where one callback at
      `t2` would: the periods counted add up, so no time is lost. */
  lemma TickNoDrift(start: real, t1: real, t2: real, period: real)
    requires 0.0 < period && start <= t1 <= t2
    ensures Tick(Tick(start, t1, period), t2, period) == start + Periods(t2 - start, period) as real * period
  {
    var mid := Tick(start, t1, period);
    TickClock(start, t1, period);
    TickClock(mid, t2, period);
    ClockNoDrift(start, mid, Tick(mid, t2, period), t1, t2, period);
  }

  /** The clock arithmetic of `TickNoDrift`: advancing from `start` by
      the whole periods up to `t1`, then by the whole periods from there up
      to `t2`, lands where advancing by the whole periods up to `t2` does. */
  lemma ClockNoDrift(start: real, mid: real, last: real, t1: real, t2: real, period: real)
    requires 0.0 < period && start <= t1 <= t2
    requires mid == start + Periods(t1 - start, period) as real * period
    requires last == mid + Periods(t2 - mid, period) as real * period
    ensures last == start + Periods(t2 - start, period) as real * period
  {
    var k1 := Periods(t1 - start, period);
    PeriodsAfter(start, mid, t2, period, k1);
    ClockSum(start, mid, last, k1, Periods(t2 - mid, period), Periods(t2 - start, period), period);
  }

  /** Counting from a clock already advanced by `k` periods counts `k`
      fewer periods. */
  lemma PeriodsAfter(start: real, mid: real, t: real, period: real, k: int)
    requires 0.0 < period && mid == start + k as real * period
    ensures k + Periods(t - mid, period) == Periods(t - start, period)
  {
    assert t - mid == (t - start) - k as real * period;
    PeriodsAdd(t - start, period, k);
  }

  /** Two clock advances of `k1` and then `k2` periods advance it by `k1 + k2`. */
  lemma ClockSum(start: real, mid: real, last: real, k1: int, k2: int, k: int, period: real)
    requires mid == start + k1 as real * period && last == mid + k2 as real * period
    requires k == k1 + k2
    ensures last == start + k as real * period
  {
    MulAdd(k1, k2, period);
  }

  /** `play`: a no-op while playing; otherwise start the clock at `now` and
      run the first callback. */
  function Play(p: Player, now: real): (r: Player)
    requires Valid(p) && p.loaded
    ensures Valid(r) && r.playing && r.pending
    ensures p.playing ==> r == p
    ensures !p.playing ==> r.current == p.current && r.lastTime == now
  {
    if p.playing then p
    else Animate(p.(playing := true, pending := true, lastTime := now), now)
  }

  /** The play button and the space bar: pause when playing, else play. */
  function Toggle(p: Player, now: real): (r: Player)
    requires Valid(p) && p.loaded
    ensures Valid(r) && r.playing == !p.playing && r.pending == !p.playing
    ensures r.current == p.current
  {
    if p.playing then Pause(p) else Play(p, now)
  }

  /** Dragging the seek bar to `value`: pause, show, and resume if it was
      playing. The bar is only on screen once a file is loaded. */
  function Seek(p: Player, value: int, now: real): (r: Player)
    requires Valid(p) && p.loaded
    ensures Valid(r) && r.playing == p.playing
    ensures r.current == (if 0 <= value < p.frames then value else p.current)
    ensures p.playing ==> r.lastTime == now
  {
    var wasPlaying := p.playing;
    var paused := if p.playing then Pause(p) else p;
    var shown := ShowFrame(paused, value);
    if wasPlaying then Play(shown, now) else shown
  }

  /** The re-render button and a render-mode switch: the frames are drawn
      again, the current frame is shown again, and playback resumes if it
      was on. Nothing happens before a file is loaded. */
  function Rerender(p: Player, now: real): (r: Player)
    requires Valid(p)
    ensures Valid(r)
    ensures !p.loaded ==> r == p
    ensures r.current == p.current && r.playing == p.playing
  {
    if !p.loaded then p
    else
      var wasPlaying := p.playing;
      var paused := if p.playing then Pause(p) else p;
      var shown := ShowFrame(paused, paused.current);
      if wasPlaying then Play(shown, now) else shown
  }

  datatype Key = Space | ArrowLeft | ArrowRight | Home | End | OtherKey

  /** The `keydown` handler. Navigation keys pause first and then move,
      clamped to the frames; keys are ignored until a file is loaded. */
  function OnKey(p: Player, key: Key, now: real): (r: Player)
    requires Valid(p)
    ensures Valid(r)
    ensures !p.loaded || key == OtherKey ==> r == p
    ensures p.loaded && key == Space ==> r.playing == !p.playing && r.current == p.current
    ensures p.loaded && key != Space && key != OtherKey ==> !r.playing && !r.pending
    ensures p.loaded && key == ArrowLeft ==> r.current == Max(0, p.current - 1)
    ensures p.loaded && key == ArrowRight ==> r.current == Min(p.frames - 1, p.current + 1)
    ensures p.loaded && key == Home ==> r.current == 0
    ensures p.loaded && key == End ==> r.current == p.frames - 1
  {
    if !p.loaded then p
    else
      match key
      case Space => Toggle(p, now)
      case ArrowLeft => ShowFrame(Pause(p), Max(0, p.current - 1))
      case ArrowRight => ShowFrame(Pause(p), Min(p.frames - 1, p.current + 1))
      case Home => ShowFrame(Pause(p), 0)
      case End => ShowFrame(Pause(p), p.frames - 1)
      case OtherKey => p
  }

  /** A file that passed validation is loaded: frame 0 is shown and the
      player is stopped. A callback scheduled before is not cancelled, so
      `pending` keeps its value. */
  function OnLoad(p: Player, frames: nat, fps: real): (r: Player)
    requires frames >= 1 && fps > 0.0
    ensures Valid(r) && r.loaded && !r.playing
    ensures r.current == 0 && r.timeline == 0 && r.frames == frames && r.fps == fps
    ensures r.pending == p.pending
  {
    var shown := ShowFrame(p.(loaded := true, frames := frames, fps := fps, timeline := 0, current := 0), 0);
    shown.(playing := false)
  }

  /** From any loaded state, End then Home visits both ends and stops. */
  lemma EndThenHome(p: Player, now: real)
    requires Valid(p) && p.loaded
    ensures var e := OnKey(p, End, now);
            var h := OnKey(e, Home, now);
            e.current == p.frames - 1 && h.current == 0 && !h.playing
  {
  }

  /** Left and right arrows undo each other away from the ends. */
  lemma ArrowsUndo(p: Player, now: real)
    requires Valid(p) && p.loaded && p.current + 1 < p.frames
    ensures OnKey(OnKey(p, ArrowRight, now), ArrowLeft, now).current == p.current
  {
  }

  // ----- time display -----

  /** `n.toString()` for an integer. */
  function IntString(n: int): string {
    if n < 0 then "-" + Digits(-n) else Digits(n)
  }

  /** `s.padStart(2, '0')`. */
  function PadStart2(s: string): (r: string)
    ensures |s| >= 2 ==> r == s
    ensures |s| < 2 ==> |r| == 2 && r[2 - |s|..] == s
  {
    if |s| >= 2 then s else Repeat('0', 2 - |s|) + s
  }

  /** `formatTime`: whole minutes, a colon, and whole seconds padded to two digits. */
  function FormatTime(seconds: real): string {
    var mins := Floor(seconds / 60.0);
    var secs := Floor(JsRem(seconds, 60.0));
    IntString(mins) + ":" + PadStart2(IntString(secs))
  }

  /** For a non-negative time the display reads back as its whole seconds:
      the part before the colon counts minutes, the two digits after it
      seconds below 60. */
  lemma FormatTimeReadBack(seconds: real)
    requires seconds >= 0.0
    ensures var s := FormatTime(seconds);
            var m := Floor(seconds / 60.0);
            var k := |Digits(m)|;
            && m >= 0 && k + 3 == |s| && s[k] == ':'
            && ParseDigits(s[k + 1..]) < 60
            && ParseDigits(s[..k]) * 60 + ParseDigits(s[k + 1..]) == Floor(seconds)
  {
    var m := Floor(seconds / 60.0);
    var secs := Floor(JsRem(seconds, 60.0));
    MinutesSeconds(seconds);
    TwoDigits(secs);
    ParseDigitsOfDigits(m);
    ColonSplit(Digits(m), PadStart2(Digits(secs)));
    assert FormatTime(seconds) == Digits(m) + ":" + PadStart2(Digits(secs));
  }

  /** The two numbers the display shows split the whole seconds. */
  lemma MinutesSeconds(seconds: real)
    requires seconds >= 0.0
    ensures var m := Floor(seconds / 60.0);
            var secs := Floor(JsRem(seconds, 60.0));
            m >= 0 && 0 <= secs < 60 && 60 * m + secs == Floor(seconds)
  {
    var m := Floor(seconds / 60.0);
    assert m >= 0;
    var rem := JsRem(seconds, 60.0);
    assert Trunc(seconds / 60.0) == m;
    assert rem == seconds - 60.0 * m as real;
    assert 60.0 * m as real <= seconds < 60.0 * m as real + 60.0;
    FloorShift(rem, 60 * m);
    assert rem + (60 * m) as real == seconds;
  }

  /** The text on either side of a colon joined in between. */
  lemma ColonSplit(d: string, t: string)
    ensures |d + ":" + t| == |d| + 1 + |t| && (d + ":" + t)[|d|] == ':'
    ensures (d + ":" + t)[..|d|] == d && (d + ":" + t)[|d| + 1..] == t
  {
    var s := d + ":" + t;
    assert s[..|d|] == d;
    assert s[|d| + 1..] == t;
  }

  /** Seconds below a minute pad to exactly two digits that read back. */
  lemma TwoDigits(secs: int)
    requires 0 <= secs < 60
    ensures |PadStart2(Digits(secs))| == 2
    ensures ParseDigits(PadStart2(Digits(secs))) == secs
  {
    if secs >= 10 {
      assert Digits(secs) == Digits(secs / 10) + [DigitChar(secs % 10)];
      assert |Digits(secs / 10)| == 1;
    }
    ParseDigitsOfDigits(secs);
    if |Digits(secs)| < 2 {
      ParseLeadingZeros(2 - |Digits(secs)|, Digits(secs));
    }
  }
}
