/**
 * The `Runner`: pushes framebuffers to the strip and drives the three
 * runners (constant pace, per-100 m splits, two events in parallel) tick by
 * tick. The wall clock is replaced by a fixed tick length `dt`, the
 * measured start-up delay by a parameter `delay`, and the stop event by
 * `stopAfter`, the number of ticks after which the stop event is seen.
 */
module Runners {
  import opened Wrappers
  import opened Numbers
  import opened Colors
  import opened Events
  import opened Tracking
  import opened Trails
  import opened Sink
  import opened Pacing
  import opened Trackers
  import opened Compositing

  /** How a run ended: it never drew, or it ran `ticks` ticks and either completed or was stopped. */
  datatype RunOutcome = NotStarted | Ran(ticks: nat, completed: bool)

  // ---------------------------------------------------------------------
  // Constant pace

  /** The frames a constant-pace run moving `step` LEDs a tick shows after ticks 1 .. `n`. */
  function ConstantFrames(ev: PaceEvent, rail: nat, step: real, p0: real, n: nat): (frames: seq<seq<int>>)
    requires rail > 0
    ensures |frames| == n
  {
    if n == 0 then []
    else
      var head := WrappedHead(step, p0, rail, n);
      ConstantFrames(ev, rail, step, p0, n - 1)
        + [PackFrame(Painted(Blank(rail), head.Floor, TrailLevels(ev.color, ev.trailLen), ev.trailLen))]
  }

  /** Where the constant-pace head starts once the start-up delay is compensated. */
  function ConstantStart(ev: PaceEvent, rail: nat, v: real, delay: real): real
  {
    StartPosition(ev.startLed, rail) as real + v * delay
  }

  /**
   * What `run_event` leaves behind on a constant-pace event: nothing when
   * the speed or the strip is empty; otherwise the blank start frame, one
   * frame per tick before the completing one, and the cleared strip. The
   * run completes at the first tick whose metres reach the distance, or
   * is stopped after `stopAfter` ticks.
   */
  ghost predicate ConstantRunEnded(ev: PaceEvent, rail: nat, dt: real, delay: real, stopAfter: nat,
                                   before: seq<seq<int>>, after: seq<seq<int>>, outcome: RunOutcome)
    requires ev.lapsM != 0
  {
    if LedsPerSec(ev) <= 0.0 || rail == 0 then outcome == NotStarted && after == before
    else
      var mps := PaceMps(ev);
      var m0 := mps * delay;
      var distance := ev.distanceM as real;
      && outcome.Ran?
      && (forall j :: 1 <= j < outcome.ticks ==> MetersAtPace(mps, m0, dt, j) < distance)
      && if outcome.completed then
           && outcome.ticks >= 1
           && MetersAtPace(mps, m0, dt, outcome.ticks) >= distance
           && after == before + [Zeros(rail)]
                + ConstantFrames(ev, rail, LedsPerSec(ev) * dt, ConstantStart(ev, rail, LedsPerSec(ev), delay),
                                 outcome.ticks - 1) + [Zeros(rail)]
         else
           && outcome.ticks == stopAfter
           && (outcome.ticks >= 1 ==> MetersAtPace(mps, m0, dt, outcome.ticks) < distance)
           && after == before + [Zeros(rail)]
                + ConstantFrames(ev, rail, LedsPerSec(ev) * dt, ConstantStart(ev, rail, LedsPerSec(ev), delay),
                                 outcome.ticks) + [Zeros(rail)]
  }

  /** One tick of the wrap loop takes the head from tick `k` to tick `k + 1`. */
  lemma HeadStep(step: real, p0: real, rail: int, k: nat, pos: real, next: real)
    requires rail > 0 && pos == WrappedHead(step, p0, rail, k)
    requires next == Wrapped(pos + step, rail)
    ensures next == WrappedHead(step, p0, rail, k + 1)
  {
  }

  /** Pushing the frame drawn at tick `k + 1` extends the log of a constant-pace run by one frame. */
  lemma FramesStep(ev: PaceEvent, rail: nat, step: real, p0: real, k: nat,
                   log: seq<seq<int>>, shown: seq<seq<int>>, fb: seq<Rgb>, head: real, next: seq<seq<int>>)
    requires rail > 0 && shown == log + ConstantFrames(ev, rail, step, p0, k)
    requires head == WrappedHead(step, p0, rail, k + 1)
    requires fb == Painted(Blank(rail), head.Floor, TrailLevels(ev.color, ev.trailLen), ev.trailLen)
    requires next == shown + [PackFrame(fb)]
    ensures next == log + ConstantFrames(ev, rail, step, p0, k + 1)
  {
  }

  // ---------------------------------------------------------------------
  // Split pace

  /** What the split runner needs beyond a positive lap length. */
  predicate SplitReady(ev: PaceEvent, rail: int)
  {
    rail > 0 && ev.railLeds != 0 && AllPositive(Splits(ev))
  }

  /** Metres done once the start-up delay is compensated at the first segment's pace. */
  function SplitStartMeters(ev: PaceEvent, delay: real): (m: real)
    requires delay >= 0.0
    ensures m >= 0.0
  {
    MulMonotone(FirstSegmentMps(Splits(ev)), 0.0, delay);
    FirstSegmentMps(Splits(ev)) * delay
  }

  /** Where the split-paced head starts once the start-up delay is compensated. */
  function SplitStart(ev: PaceEvent, rail: nat, delay: real): real
    requires ev.lapsM != 0
  {
    StartPosition(ev.startLed, rail) as real + FirstSegmentMps(Splits(ev)) * LedsPerMeter(ev) * delay
  }

  /** The frames a split-paced run shows after ticks 1 .. `n`. */
  function SplitFrames(ev: PaceEvent, rail: nat, delay: real, dt: real, n: nat): (frames: seq<seq<int>>)
    requires ev.lapsM != 0 && rail > 0 && UsesSplits(ev) && AllPositive(Splits(ev))
    requires delay >= 0.0 && dt >= 0.0
    ensures |frames| == n
  {
    if n == 0 then []
    else
      var head := SplitHead(Splits(ev), LedsPerMeter(ev), SplitStart(ev, rail, delay),
                            SplitStartMeters(ev, delay), dt, n);
      SplitFrames(ev, rail, delay, dt, n - 1)
        + [PackFrame(Painted(Blank(rail), head.Floor % rail, TrailLevels(ev.color, ev.trailLen), ev.trailLen))]
  }

  /** Pushing the frame drawn at tick `k + 1` extends the log of a split-paced run by one frame. */
  lemma SplitFramesStep(ev: PaceEvent, rail: nat, delay: real, dt: real, k: nat,
                        log: seq<seq<int>>, shown: seq<seq<int>>, fb: seq<Rgb>, head: real, next: seq<seq<int>>)
    requires ev.lapsM != 0 && rail > 0 && UsesSplits(ev) && AllPositive(Splits(ev))
    requires delay >= 0.0 && dt >= 0.0
    requires shown == log + SplitFrames(ev, rail, delay, dt, k)
    requires head == SplitHead(Splits(ev), LedsPerMeter(ev), SplitStart(ev, rail, delay),
                               SplitStartMeters(ev, delay), dt, k + 1)
    requires fb == Painted(Blank(rail), head.Floor % rail, TrailLevels(ev.color, ev.trailLen), ev.trailLen)
    requires next == shown + [PackFrame(fb)]
    ensures next == log + SplitFrames(ev, rail, delay, dt, k + 1)
  {
  }

  /**
   * What `run_event_with_splits` leaves behind: the blank start frame, one
   * frame per tick including the completing one, and the cleared strip.
   * The run completes at the first tick whose metres reach the distance,
   * or is stopped after `stopAfter` ticks.
   */
  ghost predicate SplitRunEnded(ev: PaceEvent, rail: nat, dt: real, delay: real, stopAfter: nat,
                                before: seq<seq<int>>, after: seq<seq<int>>, outcome: RunOutcome)
    requires ev.lapsM != 0 && rail > 0 && UsesSplits(ev) && AllPositive(Splits(ev))
    requires delay >= 0.0 && dt >= 0.0
  {
    var splits := Splits(ev);
    var m0 := SplitStartMeters(ev, delay);
    var distance := ev.distanceM as real;
    && outcome.Ran?
    && after == before + [Zeros(rail)] + SplitFrames(ev, rail, delay, dt, outcome.ticks) + [Zeros(rail)]
    && (forall j :: 1 <= j < outcome.ticks ==> SplitMeters(splits, m0, dt, j) < distance)
    && if outcome.completed then
         outcome.ticks >= 1 && SplitMeters(splits, m0, dt, outcome.ticks) >= distance
       else
         && outcome.ticks == stopAfter
         && (outcome.ticks >= 1 ==> SplitMeters(splits, m0, dt, outcome.ticks) < distance)
  }

  // ---------------------------------------------------------------------
  // Two events in parallel

  /**
   * What the parallel runner needs once the events it keeps pass
   * validation: a positive lap length and positive splits. Events that fail
   * validation are refused before anything is divided, whatever their lap.
   */
  predicate ParallelReady(events: seq<PaceEvent>, rail: int)
  {
    |events| > 0 && ConfigCheck(FirstTwo(events), rail).None? ==>
      && events[0].lapsM > 0
      && forall i :: 0 <= i < |events| && i < 2 && UsesSplits(events[i]) ==> AllPositive(Splits(events[i]))
  }

  /**
   * Events with a zero lap that fail validation may still be handed to the
   * parallel runner, which refuses them with the validation error and shows
   * nothing: a 150-LED rail on a 200-LED strip, or a zero lap beside a
   * 400 m one.
   */
  lemma ZeroLapRefused(dt: real, delay: real, stopAfter: nat, before: seq<seq<int>>, after: seq<seq<int>>,
                       error: Option<ConfigError>, outcome: RunOutcome)
    requires dt > 0.0 && delay >= 0.0
    ensures var evs := [PaceEvent("a", 800, 150, 120.0, 0, GREEN, 5, None, None),
                        PaceEvent("b", 800, 150, 118.0, 0, GREEN, 5, None, None)];
      && ParallelReady(evs, 200)
      && (ParallelRunEnded(evs, 200, dt, delay, stopAfter, before, after, error, outcome) ==>
            error == Some(RailMismatch) && outcome.NotStarted? && after == before)
    ensures var evs := [PaceEvent("a", 800, 200, 120.0, 0, GREEN, 5, None, None),
                        PaceEvent("b", 800, 200, 118.0, 400, GREEN, 5, None, None)];
      && ParallelReady(evs, 200)
      && (ParallelRunEnded(evs, 200, dt, delay, stopAfter, before, after, error, outcome) ==>
            error == Some(LapMismatch) && outcome.NotStarted? && after == before)
  {
    var rails := [PaceEvent("a", 800, 150, 120.0, 0, GREEN, 5, None, None),
                  PaceEvent("b", 800, 150, 118.0, 0, GREEN, 5, None, None)];
    assert FirstTwo(rails) == rails;
    assert CheckFrom(rails, 200, 0) == Some(RailMismatch);
    var laps := [PaceEvent("a", 800, 200, 120.0, 0, GREEN, 5, None, None),
                 PaceEvent("b", 800, 200, 118.0, 400, GREEN, 5, None, None)];
    assert FirstTwo(laps) == laps;
    assert CheckFrom(laps, 200, 1) == Some(LapMismatch);
  }

  /** The trackers of a validated parallel run, after the start-up compensation. */
  function ParallelStart(evs: seq<PaceEvent>, rail: nat, delay: real): (s0: seq<TrackState>)
    requires forall i :: 0 <= i < |evs| ==> evs[i].lapsM > 0 && evs[i].railLeds == rail
    requires forall i :: 0 <= i < |evs| && UsesSplits(evs[i]) ==> AllPositive(Splits(evs[i]))
    requires delay >= 0.0
    ensures AllTrack(s0, rail) && |s0| == |InitialStates(evs, rail)|
  {
    InitialStatesAreTrackers(evs, rail);
    var s := InitialStates(evs, rail);
    assert AllTrack(s, rail) by {
      forall i | 0 <= i < |s| ensures TrackValid(s[i], rail) {
        assert s[i] in s;
      }
    }
    DelayedAll(s, rail, delay)
  }

  /** Events that pass validation share the strip's length and a positive lap, so their trackers are valid. */
  lemma ValidatedTrackers(events: seq<PaceEvent>, rail: nat)
    requires ParallelReady(events, rail) && |events| > 0 && ConfigCheck(FirstTwo(events), rail).None?
    ensures var evs := FirstTwo(events);
      && (forall i :: 0 <= i < |evs| ==> evs[i].lapsM > 0 && evs[i].railLeds == rail)
      && (forall i :: 0 <= i < |evs| && UsesSplits(evs[i]) ==> AllPositive(Splits(evs[i])))
      && AllTrack(InitialStates(evs, rail), rail)
  {
    var evs := FirstTwo(events);
    InitialStatesAreTrackers(evs, rail);
    var s := InitialStates(evs, rail);
    forall i | 0 <= i < |s| ensures TrackValid(s[i], rail) {
      assert s[i] in s;
    }
  }

  /** The frames a parallel run shows after ticks 1 .. `n`. */
  function ParallelFrames(s0: seq<TrackState>, rail: nat, dt: real, n: nat): (frames: seq<seq<int>>)
    requires AllTrack(s0, rail) && dt > 0.0
    ensures |frames| == n
  {
    if n == 0 then []
    else ParallelFrames(s0, rail, dt, n - 1) + [PackFrame(Compose(Blank(rail), StatesAfter(s0, rail, dt, n)))]
  }

  /** The frame of tick `k + 1` composites the trackers as that tick leaves them. */
  lemma ParallelFramesStep(s0: seq<TrackState>, rail: nat, dt: real, k: nat, sts: seq<TrackState>)
    requires AllTrack(s0, rail) && dt > 0.0
    requires sts == AdvanceAll(StatesAfter(s0, rail, dt, k), rail, dt)
    ensures sts == StatesAfter(s0, rail, dt, k + 1)
    ensures ParallelFrames(s0, rail, dt, k + 1)
      == ParallelFrames(s0, rail, dt, k) + [PackFrame(Compose(Blank(rail), sts))]
  {
  }

  /**
   * A run that stops because tick `k` began with every tracker done pushes
   * an all-black frame on that tick: nothing is left to draw.
   */
  lemma ParallelFinalFrameBlank(s0: seq<TrackState>, rail: nat, dt: real, k: nat)
    requires AllTrack(s0, rail) && dt > 0.0 && k >= 1
    requires AllDone(StatesAfter(s0, rail, dt, k - 1))
    ensures ParallelFrames(s0, rail, dt, k)[k - 1] == Zeros(rail)
  {
    var before := StatesAfter(s0, rail, dt, k - 1);
    AdvanceAllDone(before, rail, dt);
    assert StatesAfter(s0, rail, dt, k) == before;
    ComposeAllDone(Blank(rail), before);
    PackBlank(rail);
  }

  /**
   * What `run_events_parallel` leaves behind. No events: nothing. A
   * validation error: the error and nothing shown. No tracker with a
   * positive speed: nothing shown. Otherwise the blank start frame, one
   * composited frame per tick, and the cleared strip; the run stops after
   * the first tick that started with every tracker done, or after
   * `stopAfter` ticks.
   */
  ghost predicate ParallelRunEnded(events: seq<PaceEvent>, rail: nat, dt: real, delay: real, stopAfter: nat,
                                   before: seq<seq<int>>, after: seq<seq<int>>,
                                   error: Option<ConfigError>, outcome: RunOutcome)
    requires ParallelReady(events, rail) && dt > 0.0 && delay >= 0.0
  {
    if |events| == 0 then error.None? && outcome.NotStarted? && after == before
    else
      var evs := FirstTwo(events);
      && error == ConfigCheck(evs, rail)
      && if error.Some? || InitialStates(evs, rail) == [] then outcome.NotStarted? && after == before
         else
           var s0 := ParallelStart(evs, rail, delay);
           && outcome.Ran?
           && after == before + [Zeros(rail)] + ParallelFrames(s0, rail, dt, outcome.ticks) + [Zeros(rail)]
           && ParallelStopped(s0, rail, dt, stopAfter, outcome)
  }

  /**
   * When the parallel tick loop stops: after the first tick that started
   * with every tracker done, or after `stopAfter` ticks that each started
   * with some tracker live.
   */
  ghost predicate ParallelStopped(s0: seq<TrackState>, rail: int, dt: real, stopAfter: nat, outcome: RunOutcome)
    requires AllTrack(s0, rail) && dt > 0.0
  {
    && outcome.Ran?
    && if outcome.completed then
         && outcome.ticks >= 1
         && AllDone(StatesAfter(s0, rail, dt, outcome.ticks - 1))
         && LiveThrough(s0, rail, dt, outcome.ticks - 1)
       else
         && outcome.ticks == stopAfter
         && LiveThrough(s0, rail, dt, outcome.ticks)
  }

  /** Ticks `0 .. n-1` each started with some tracker still live. */
  ghost predicate LiveThrough(s0: seq<TrackState>, rail: int, dt: real, n: int)
    requires AllTrack(s0, rail) && dt > 0.0
  {
    forall j :: 0 <= j < n ==> !AllDone(StatesAfter(s0, rail, dt, j))
  }

  lemma LiveThroughStep(s0: seq<TrackState>, rail: int, dt: real, n: nat)
    requires AllTrack(s0, rail) && dt > 0.0
    requires LiveThrough(s0, rail, dt, n) && !AllDone(StatesAfter(s0, rail, dt, n))
    ensures LiveThrough(s0, rail, dt, n + 1)
  {
  }

  // ---------------------------------------------------------------------
  // The runner

  class Runner {
    const strip: Strip

    ghost predicate Valid()
      reads this, strip
    {
      strip.Valid()
    }

    constructor (strip: Strip)
      requires strip.Valid()
      ensures Valid() && this.strip == strip
    {
      this.strip := strip;
    }

    /** `_push_frame`: every pixel packed in the strip's colour order, then one `show()`. */
    method PushFrame(fb: array<Rgb>)
      requires Valid() && fb.Length == strip.count
      modifies strip, strip.pixels
      ensures Valid()
      ensures strip.pixels[..] == PackFrame(fb[..])
      ensures strip.shown == old(strip.shown) + [PackFrame(fb[..])]
    {
      var i := 0;
      while i < fb.Length
        invariant 0 <= i <= fb.Length && strip.Valid()
        invariant strip.shown == old(strip.shown)
        invariant forall j :: 0 <= j < i ==> strip.pixels[j] == PackTuple(fb[j], COLOR_ORDER)
      {
        strip.SetPixelColor(i, PackTuple(fb[i], COLOR_ORDER));
        i := i + 1;
      }
      assert strip.pixels[..] == PackFrame(fb[..]);
      strip.Show();
    }

    /** `run_event`: hands split-paced events to the split runner, runs the rest at constant pace. */
    method RunEvent(ev: PaceEvent, dt: real, delay: real, stopAfter: nat) returns (outcome: RunOutcome)
      requires Valid() && ev.lapsM > 0 && dt > 0.0 && delay >= 0.0
      requires UsesSplits(ev) ==> SplitReady(ev, strip.count)
      modifies strip, strip.pixels
      ensures Valid()
      ensures UsesSplits(ev) ==>
        SplitRunEnded(ev, strip.count, dt, delay, stopAfter, old(strip.shown), strip.shown, outcome)
      ensures !UsesSplits(ev) ==>
        ConstantRunEnded(ev, strip.count, dt, delay, stopAfter, old(strip.shown), strip.shown, outcome)
      decreases if UsesSplits(ev) then 2 else 0
    {
      if UsesSplits(ev) {
        outcome := RunEventWithSplits(ev, dt, delay, stopAfter);
        return;
      }
      var rail := strip.count;
      var ledsPerSec := LedsPerSec(ev);
      if ledsPerSec <= 0.0 || rail <= 0 {
        return NotStarted;
      }
      var run := new ConstantPaceRun(ev, rail);
      PackBlank(rail);
      PushFrame(run.fb);
      run.PreAdvance(delay);
      outcome := RunConstantTicks(run, ev, dt, delay, stopAfter);
      strip.Clear();
    }

    /**
     * The tick loop of `run_event`: advance and wrap, stop at the distance
     * before drawing, otherwise draw and push the frame.
     */
    method RunConstantTicks(run: ConstantPaceRun, ev: PaceEvent, dt: real, delay: real, stopAfter: nat) returns (outcome: RunOutcome)
      requires Valid() && run.Valid() && run.ev == ev && run.rail == strip.count && dt > 0.0 && delay >= 0.0
      requires run.pos == ConstantStart(ev, run.rail, LedsPerSec(ev), delay)
      requires run.metersDone == 0.0 + PaceMps(ev) * delay
      modifies strip, strip.pixels, run, run.fb
      ensures Valid() && outcome.Ran?
      ensures
        var m0 := PaceMps(ev) * delay;
        var distance := ev.distanceM as real;
        var frames := ConstantFrames(ev, run.rail, LedsPerSec(ev) * dt, ConstantStart(ev, run.rail, LedsPerSec(ev), delay),
                                     if outcome.completed && outcome.ticks >= 1 then outcome.ticks - 1 else outcome.ticks);
        && strip.shown == old(strip.shown) + frames
        && (forall j :: 1 <= j < outcome.ticks ==> MetersAtPace(PaceMps(ev), m0, dt, j) < distance)
        && if outcome.completed then
             outcome.ticks >= 1 && MetersAtPace(PaceMps(ev), m0, dt, outcome.ticks) >= distance
           else
             && outcome.ticks == stopAfter
             && (outcome.ticks >= 1 ==> MetersAtPace(PaceMps(ev), m0, dt, outcome.ticks) < distance)
    {
      var rail := run.rail;
      ghost var step := LedsPerSec(ev) * dt;
      ghost var p0 := ConstantStart(ev, rail, LedsPerSec(ev), delay);
      ghost var m0 := PaceMps(ev) * delay;
      var ticks: nat := 0;
      while ticks < stopAfter
        invariant Valid() && run.Valid() && run.ev == ev && run.rail == rail
        invariant ticks <= stopAfter
        invariant run.pos == WrappedHead(step, p0, rail, ticks)
        invariant run.metersDone == MetersAtPace(PaceMps(ev), m0, dt, ticks)
        invariant forall j :: 1 <= j <= ticks ==> MetersAtPace(PaceMps(ev), m0, dt, j) < ev.distanceM as real
        invariant strip.shown == old(strip.shown) + ConstantFrames(ev, rail, step, p0, ticks)
      {
        var finished := ConstantTick(run, dt, step, p0, m0, ticks, old(strip.shown));
        ticks := ticks + 1;
        if finished {
          return Ran(ticks, true);
        }
      }
      outcome := Ran(ticks, false);
    }

    /** One tick of `run_event`: advance and wrap; unless the distance is reached, draw and push the frame. */
    method ConstantTick(run: ConstantPaceRun, dt: real, ghost step: real, ghost p0: real, ghost m0: real, ghost k: nat,
                        ghost log: seq<seq<int>>) returns (finished: bool)
      requires Valid() && run.Valid() && run.rail == strip.count && dt > 0.0
      requires step == LedsPerSec(run.ev) * dt
      requires run.pos == WrappedHead(step, p0, run.rail, k)
      requires run.metersDone == MetersAtPace(PaceMps(run.ev), m0, dt, k)
      requires strip.shown == log + ConstantFrames(run.ev, run.rail, step, p0, k)
      modifies strip, strip.pixels, run, run.fb
      ensures Valid() && run.Valid()
      ensures run.pos == WrappedHead(step, p0, run.rail, k + 1)
      ensures run.metersDone == MetersAtPace(PaceMps(run.ev), m0, dt, k + 1)
      ensures finished <==> run.metersDone >= run.ev.distanceM as real
      ensures finished ==> strip.shown == old(strip.shown)
      ensures !finished ==> strip.shown == log + ConstantFrames(run.ev, run.rail, step, p0, k + 1)
    {
      finished := AdvanceConstant(run, dt, step, p0, m0, k);
      if !finished {
        ghost var shown := strip.shown;
        PushFrame(run.fb);
        FramesStep(run.ev, run.rail, step, p0, k, log, shown, run.fb[..], run.pos, strip.shown);
      }
    }

    /** The state half of a constant-pace tick, stated against the head and metres after `k + 1` ticks. */
    static method AdvanceConstant(run: ConstantPaceRun, dt: real, ghost step: real, ghost p0: real, ghost m0: real,
                                  ghost k: nat) returns (finished: bool)
      requires run.Valid() && dt > 0.0 && step == LedsPerSec(run.ev) * dt
      requires run.pos == WrappedHead(step, p0, run.rail, k)
      requires run.metersDone == MetersAtPace(PaceMps(run.ev), m0, dt, k)
      modifies run, run.fb
      ensures run.Valid()
      ensures run.pos == WrappedHead(step, p0, run.rail, k + 1)
      ensures run.metersDone == MetersAtPace(PaceMps(run.ev), m0, dt, k + 1)
      ensures finished <==> run.metersDone >= run.ev.distanceM as real
      ensures !finished ==> run.fb[..] == Painted(Blank(run.rail), run.pos.Floor, run.levels, run.ev.trailLen)
    {
      ghost var pos := run.pos;
      finished := run.Tick(dt);
      assert step == run.ledsPerSec * dt;
      HeadStep(step, p0, run.rail, k, pos, run.pos);
    }

    /** `run_event_with_splits`: hands events without splits back to `run_event`. */
    method RunEventWithSplits(ev: PaceEvent, dt: real, delay: real, stopAfter: nat) returns (outcome: RunOutcome)
      requires Valid() && ev.lapsM > 0 && dt > 0.0 && delay >= 0.0
      requires UsesSplits(ev) ==> SplitReady(ev, strip.count)
      modifies strip, strip.pixels
      ensures Valid()
      ensures UsesSplits(ev) ==>
        SplitRunEnded(ev, strip.count, dt, delay, stopAfter, old(strip.shown), strip.shown, outcome)
      ensures !UsesSplits(ev) ==>
        ConstantRunEnded(ev, strip.count, dt, delay, stopAfter, old(strip.shown), strip.shown, outcome)
      decreases 1
    {
      if !UsesSplits(ev) {
        outcome := RunEvent(ev, dt, delay, stopAfter);
        return;
      }
      var rail := strip.count;
      var run := new SplitPaceRun(ev, rail);
      PackBlank(rail);
      PushFrame(run.fb);
      run.PreAdvance(delay);
      outcome := RunSplitTicks(run, dt, delay, stopAfter);
      strip.Clear();
    }

    /** The tick loop of `run_event_with_splits`: advance, draw and push, then stop at the distance. */
    method RunSplitTicks(run: SplitPaceRun, dt: real, delay: real, stopAfter: nat) returns (outcome: RunOutcome)
      requires Valid() && run.Valid() && run.rail == strip.count && dt > 0.0 && delay >= 0.0
      requires UsesSplits(run.ev)
      requires run.pos == StartPosition(run.ev.startLed, run.rail) as real + FirstSegmentMps(run.splits) * run.lpm * delay
      requires run.metersDone == 0.0 + FirstSegmentMps(run.splits) * delay
      modifies strip, strip.pixels, run, run.fb
      ensures Valid() && outcome.Ran?
      ensures
        var ev := run.ev;
        var m0 := SplitStartMeters(ev, delay);
        var distance := ev.distanceM as real;
        && strip.shown == old(strip.shown) + SplitFrames(ev, run.rail, delay, dt, outcome.ticks)
        && (forall j :: 1 <= j < outcome.ticks ==> SplitMeters(run.splits, m0, dt, j) < distance)
        && if outcome.completed then
             outcome.ticks >= 1 && SplitMeters(run.splits, m0, dt, outcome.ticks) >= distance
           else
             && outcome.ticks == stopAfter
             && (outcome.ticks >= 1 ==> SplitMeters(run.splits, m0, dt, outcome.ticks) < distance)
    {
      var ev := run.ev;
      var rail := run.rail;
      var splits := run.splits;
      ghost var p0 := SplitStart(ev, rail, delay);
      ghost var m0 := SplitStartMeters(ev, delay);
      var ticks: nat := 0;
      while ticks < stopAfter
        invariant Valid() && run.Valid() && run.ev == ev && run.rail == rail && run.splits == splits
        invariant ticks <= stopAfter
        invariant run.metersDone == SplitMeters(splits, m0, dt, ticks)
        invariant run.pos == SplitHead(splits, run.lpm, p0, m0, dt, ticks)
        invariant forall j :: 1 <= j <= ticks ==> SplitMeters(splits, m0, dt, j) < ev.distanceM as real
        invariant strip.shown == old(strip.shown) + SplitFrames(ev, rail, delay, dt, ticks)
      {
        var finished := SplitTick(run, dt, p0, m0, ticks, old(strip.shown), delay);
        ticks := ticks + 1;
        if finished {
          return Ran(ticks, true);
        }
      }
      outcome := Ran(ticks, false);
    }

    /** One tick of `run_event_with_splits`: advance at the current segment's pace, draw and push the frame. */
    method SplitTick(run: SplitPaceRun, dt: real, ghost p0: real, ghost m0: real, ghost k: nat,
                     ghost log: seq<seq<int>>, ghost delay: real) returns (finished: bool)
      requires Valid() && run.Valid() && run.rail == strip.count && dt > 0.0 && delay >= 0.0
      requires UsesSplits(run.ev)
      requires p0 == SplitStart(run.ev, run.rail, delay) && m0 == SplitStartMeters(run.ev, delay)
      requires run.pos == SplitHead(run.splits, run.lpm, p0, m0, dt, k)
      requires run.metersDone == SplitMeters(run.splits, m0, dt, k)
      requires strip.shown == log + SplitFrames(run.ev, run.rail, delay, dt, k)
      modifies strip, strip.pixels, run, run.fb
      ensures Valid() && run.Valid()
      ensures run.pos == SplitHead(run.splits, run.lpm, p0, m0, dt, k + 1)
      ensures run.metersDone == SplitMeters(run.splits, m0, dt, k + 1)
      ensures finished <==> run.metersDone >= run.ev.distanceM as real
      ensures strip.shown == log + SplitFrames(run.ev, run.rail, delay, dt, k + 1)
    {
      finished := AdvanceSplit(run, dt, p0, m0, k);
      ghost var shown := strip.shown;
      PushFrame(run.fb);
      SplitFramesStep(run.ev, run.rail, delay, dt, k, log, shown, run.fb[..], run.pos, strip.shown);
    }

    /** The state half of a split-paced tick, stated against the head and metres after `k + 1` ticks. */
    static method AdvanceSplit(run: SplitPaceRun, dt: real, ghost p0: real, ghost m0: real, ghost k: nat)
      returns (finished: bool)
      requires run.Valid() && dt > 0.0 && m0 >= 0.0
      requires run.pos == SplitHead(run.splits, run.lpm, p0, m0, dt, k)
      requires run.metersDone == SplitMeters(run.splits, m0, dt, k)
      modifies run, run.fb
      ensures run.Valid()
      ensures run.pos == SplitHead(run.splits, run.lpm, p0, m0, dt, k + 1)
      ensures run.metersDone == SplitMeters(run.splits, m0, dt, k + 1)
      ensures finished <==> run.metersDone >= run.ev.distanceM as real
      ensures run.fb[..] == Painted(Blank(run.rail), run.pos.Floor % run.rail, run.levels, run.ev.trailLen)
    {
      finished := run.Tick(dt);
    }

    /**
     * `run_events_parallel`: keeps the first two events, validates them,
     * sets up one tracker per event with a positive speed, and composites
     * their trails additively tick by tick.
     */
    method RunEventsParallel(events: seq<PaceEvent>, dt: real, delay: real, stopAfter: nat)
      returns (error: Option<ConfigError>, outcome: RunOutcome)
      requires Valid() && ParallelReady(events, strip.count) && dt > 0.0 && delay >= 0.0
      modifies strip, strip.pixels
      ensures Valid()
      ensures ParallelRunEnded(events, strip.count, dt, delay, stopAfter, old(strip.shown), strip.shown, error, outcome)
    {
      if |events| == 0 {
        return None, NotStarted;
      }
      var evs := FirstTwo(events);
      var rail := strip.count;
      error := ConfigCheck(evs, rail);
      if error.Some? {
        return error, NotStarted;
      }
      ValidatedTrackers(events, rail);
      var states := BuildStates(evs, rail);
      if |states| == 0 {
        return None, NotStarted;
      }
      ghost var s0 := ParallelStart(evs, rail, delay);
      assert rail > 0 by {
        assert TrackValid(ParallelStart(evs, rail, delay)[0], rail);
      }
      var comp := new Compositor(rail, states);
      PackBlank(rail);
      PushFrame(comp.fb);
      comp.PreAdvance(delay);
      assert comp.states == s0;
      outcome := RunParallelTicks(comp, dt, stopAfter);
      strip.Clear();
    }

    /** The tick loop of `run_events_parallel`: composite, push, then stop once every tracker was done. */
    method RunParallelTicks(comp: Compositor, dt: real, stopAfter: nat) returns (outcome: RunOutcome)
      requires Valid() && comp.Valid() && comp.rail == strip.count && dt > 0.0
      modifies strip, strip.pixels, comp, comp.fb
      ensures Valid() && outcome.Ran?
      ensures
        var s0 := old(comp.states);
        && AllTrack(s0, comp.rail)
        && strip.shown == old(strip.shown) + ParallelFrames(s0, comp.rail, dt, outcome.ticks)
        && ParallelStopped(s0, comp.rail, dt, stopAfter, outcome)
    {
      var rail := comp.rail;
      ghost var s0 := comp.states;
      var ticks: nat := 0;
      while ticks < stopAfter
        invariant Valid() && comp.Valid() && comp.rail == rail
        invariant ticks <= stopAfter
        invariant comp.states == StatesAfter(s0, rail, dt, ticks)
        invariant LiveThrough(s0, rail, dt, ticks)
        invariant strip.shown == old(strip.shown) + ParallelFrames(s0, rail, dt, ticks)
      {
        var allDone := ParallelTick(comp, dt, s0, ticks, old(strip.shown));
        ticks := ticks + 1;
        if allDone {
          return Ran(ticks, true);
        }
      }
      outcome := Ran(ticks, false);
    }

    /** One tick of `run_events_parallel`: advance and composite every live tracker, then push the frame. */
    method ParallelTick(comp: Compositor, dt: real, ghost s0: seq<TrackState>, ghost k: nat, ghost log: seq<seq<int>>)
      returns (allDone: bool)
      requires Valid() && comp.Valid() && comp.rail == strip.count && dt > 0.0
      requires AllTrack(s0, comp.rail) && comp.states == StatesAfter(s0, comp.rail, dt, k)
      requires strip.shown == log + ParallelFrames(s0, comp.rail, dt, k)
      modifies strip, strip.pixels, comp, comp.fb
      ensures Valid() && comp.Valid() && comp.states == StatesAfter(s0, comp.rail, dt, k + 1)
      ensures allDone <==> AllDone(StatesAfter(s0, comp.rail, dt, k))
      ensures LiveThrough(s0, comp.rail, dt, k) && !allDone ==> LiveThrough(s0, comp.rail, dt, k + 1)
      ensures strip.shown == log + ParallelFrames(s0, comp.rail, dt, k + 1)
    {
      allDone := comp.Tick(dt);
      ParallelFramesStep(s0, comp.rail, dt, k, comp.states);
      PushFrame(comp.fb);
      if LiveThrough(s0, comp.rail, dt, k) && !allDone {
        LiveThroughStep(s0, comp.rail, dt, k);
      }
    }
  }
}
