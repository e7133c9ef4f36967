/**
 * The tracker states of `Runner.run_events_parallel` (GUI1.py:348-369 and
 * 401-446): one per event with a positive speed, and what one tick does to
 * a live tracker.
 */
module Trackers {
  import opened Numbers
  import opened Colors
  import opened Events
  import opened Tracking
  import opened Trails

  /** The per-event tracker state (the dict built at GUI1.py:358-368). */
  datatype TrackState = TrackState(
    ev: PaceEvent,
    ledsPerSec: real,
    pos: real,
    traversalsNeeded: int,
    traversalsDone: int,
    metersDone: real,
    useSplits: bool,
    done: bool,
    levels: seq<Rgb>)

  function InitialState(ev: PaceEvent, rail: int): TrackState
    requires ev.lapsM != 0
  {
    TrackState(ev, LedsPerSec(ev), StartPosition(ev.startLed, rail) as real, TotalLedTraversals(ev),
      0, 0.0, UsesSplits(ev), false, TrailLevels(ev.color, ev.trailLen))
  }

  /** The states of the events in order, leaving out those whose speed is not positive. */
  function InitialStates(evs: seq<PaceEvent>, rail: int): seq<TrackState>
    requires forall i :: 0 <= i < |evs| ==> evs[i].lapsM != 0
  {
    if |evs| == 0 then []
    else
      var last := evs[|evs| - 1];
      InitialStates(evs[..|evs| - 1], rail)
        + (if LedsPerSec(last) > 0.0 then [InitialState(last, rail)] else [])
  }

  /** The set-up loop of `run_events_parallel`. */
  method BuildStates(evs: seq<PaceEvent>, rail: int) returns (states: seq<TrackState>)
    requires forall i :: 0 <= i < |evs| ==> evs[i].lapsM != 0
    ensures states == InitialStates(evs, rail)
  {
    states := [];
    for i := 0 to |evs|
      invariant states == InitialStates(evs[..i], rail)
    {
      assert evs[..i + 1][..i] == evs[..i];
      var ev := evs[i];
      var ledsPerSec := LedsPerSec(ev);
      if ledsPerSec <= 0.0 {
        continue;
      }
      var levels := PrecomputeTrail(ev);
      states := states + [TrackState(ev, ledsPerSec, StartPosition(ev.startLed, rail) as real,
        TotalLedTraversals(ev), 0, 0.0, UsesSplits(ev), false, levels)];
    }
    assert evs[..|evs|] == evs;
  }

  /**
   * What a tracker state keeps true while the run goes on: it belongs to an
   * event on this rail with a positive speed; a constant-pace state is done
   * exactly when its traversal count reached the target, which it never
   * passes; a split-pace state counts no traversals and is done only once
   * its metres reach the distance.
   */
  predicate TrackValid(st: TrackState, rail: int)
  {
    && rail > 0 && st.ev.railLeds == rail && st.ev.lapsM > 0
    && st.ledsPerSec == LedsPerSec(st.ev) && st.ledsPerSec > 0.0
    && st.traversalsNeeded == TotalLedTraversals(st.ev)
    && st.useSplits == UsesSplits(st.ev)
    && (st.useSplits ==> AllPositive(Splits(st.ev)) && st.traversalsDone == 0)
    && (st.useSplits && st.done ==> st.metersDone >= st.ev.distanceM as real)
    && (!st.useSplits ==>
          0 <= st.traversalsDone <= st.traversalsNeeded
          && (st.done <==> st.traversalsDone >= st.traversalsNeeded))
    && st.levels == TrailLevels(st.ev.color, st.ev.trailLen)
    && st.pos >= 0.0 && st.metersDone >= 0.0
  }

  /** A state built for an event on this rail with a positive speed is a fresh, valid tracker. */
  lemma InitialStateIsTracker(ev: PaceEvent, rail: nat)
    requires ev.lapsM > 0 && ev.railLeds == rail && LedsPerSec(ev) > 0.0
    requires UsesSplits(ev) ==> AllPositive(Splits(ev))
    ensures TrackValid(InitialState(ev, rail), rail) && !InitialState(ev, rail).done
  {
  }

  /**
   * Every state built for validated events is a valid tracker, each event
   * with a positive speed gets one, and no other event does.
   */
  lemma {:induction false} InitialStatesAreTrackers(evs: seq<PaceEvent>, rail: nat)
    requires forall i :: 0 <= i < |evs| ==> evs[i].lapsM > 0 && evs[i].railLeds == rail
    requires forall i :: 0 <= i < |evs| && UsesSplits(evs[i]) ==> AllPositive(Splits(evs[i]))
    ensures forall st :: st in InitialStates(evs, rail) ==>
      TrackValid(st, rail) && !st.done && st.ev in evs && LedsPerSec(st.ev) > 0.0
    ensures forall i :: 0 <= i < |evs| && LedsPerSec(evs[i]) > 0.0 ==>
      InitialState(evs[i], rail) in InitialStates(evs, rail)
  {
    if |evs| > 0 {
      var init := evs[..|evs| - 1];
      var last := evs[|evs| - 1];
      InitialStatesAreTrackers(init, rail);
      if LedsPerSec(last) > 0.0 {
        InitialStateIsTracker(last, rail);
      }
      forall st | st in InitialStates(init, rail)
        ensures st.ev in evs
      {
        assert st.ev in init;
      }
      forall i | 0 <= i < |evs| && LedsPerSec(evs[i]) > 0.0
        ensures InitialState(evs[i], rail) in InitialStates(evs, rail)
      {
        if i < |evs| - 1 {
          assert evs[i] == init[i];
        }
      }
    }
  }

  /** On a rail with no LEDs no validated event moves, so the run stops before its first frame. */
  lemma {:induction false} NoStatesOnEmptyRail(evs: seq<PaceEvent>)
    requires forall i :: 0 <= i < |evs| ==> evs[i].lapsM > 0 && evs[i].railLeds == 0
    ensures InitialStates(evs, 0) == []
  {
    if |evs| > 0 {
      NoStatesOnEmptyRail(evs[..|evs| - 1]);
    }
  }

  // ---------------------------------------------------------------------
  // One tracker, one tick

  /**
   * The head speed this tick, in LEDs per second: the current 100 m
   * segment's for a split-pace state, the constant one otherwise.
   */
  function Velocity(st: TrackState, rail: int): (v: real)
    requires TrackValid(st, rail)
    ensures v > 0.0
  {
    if st.useSplits then
      var mps := SplitMps(Splits(st.ev), st.metersDone);
      PositiveProduct(mps, LedsPerMeter(st.ev));
      mps * LedsPerMeter(st.ev)
    else st.ledsPerSec
  }

  /** The metres per second that the head speed stands for. */
  function Pace(st: TrackState): real
    requires st.ev.lapsM != 0
    requires st.useSplits ==> |Splits(st.ev)| >= 1 && AllPositive(Splits(st.ev)) && st.metersDone >= 0.0
  {
    if st.useSplits then SplitMps(Splits(st.ev), st.metersDone) else PaceMps(st.ev)
  }

  /**
   * The second half of a tick that moved the head to `x` and the metres to
   * `m`: the wrap loop (counting traversals for a constant-pace state),
   * then the completion rule of the state's mode.
   */
  function Settle(st: TrackState, rail: int, x: real, m: real): TrackState
    requires rail > 0 && (!st.useSplits ==> st.traversalsDone < st.traversalsNeeded)
  {
    var n := TraversalSteps(x, rail, !st.useSplits, st.traversalsDone, st.traversalsNeeded);
    var count := if st.useSplits then st.traversalsDone else st.traversalsDone + n;
    st.(pos := TraversalPos(x, rail, !st.useSplits, st.traversalsDone, st.traversalsNeeded),
        metersDone := m, traversalsDone := count,
        done := if st.useSplits then m >= st.ev.distanceM as real else count >= st.traversalsNeeded)
  }

  /** `pos_f += v * dt`: the head before the wrap loop. */
  function AdvancedPos(st: TrackState, rail: int, dt: real): real
    requires TrackValid(st, rail)
  {
    st.pos + Velocity(st, rail) * dt
  }

  /** `meters_done += (v / lpm) * dt`. */
  function AdvancedMeters(st: TrackState, rail: int, dt: real): real
    requires TrackValid(st, rail)
  {
    st.metersDone + (Velocity(st, rail) / LedsPerMeter(st.ev)) * dt
  }

  /** The state after one tick of a live tracker: advance the head and the metres, then settle. */
  function Step(st: TrackState, rail: int, dt: real): TrackState
    requires TrackValid(st, rail) && !st.done && dt > 0.0
  {
    Settle(st, rail, AdvancedPos(st, rail, dt), AdvancedMeters(st, rail, dt))
  }

  /** The body of the loop over `state` for one live tracker, up to the completion rule. */
  method StepTrack(st: TrackState, rail: int, dt: real) returns (next: TrackState)
    requires TrackValid(st, rail) && !st.done && dt > 0.0
    ensures next == Step(st, rail, dt)
  {
    var x := AdvancedPos(st, rail, dt);
    var m := AdvancedMeters(st, rail, dt);
    var p, count, reached := WrapTraversals(x, rail, !st.useSplits, st.traversalsDone, st.traversalsNeeded);
    var done := if st.useSplits then m >= st.ev.distanceM as real else reached;
    next := st.(pos := p, metersDone := m, traversalsDone := count, done := done);
  }

  /** The head speed over LEDs per metre is the state's pace, which is positive. */
  lemma VelocityIsPace(st: TrackState, rail: int)
    requires TrackValid(st, rail)
    ensures Velocity(st, rail) / LedsPerMeter(st.ev) == Pace(st) && Pace(st) > 0.0
  {
    var lpm := LedsPerMeter(st.ev);
    assert lpm > 0.0;
    if st.useSplits {
      CancelFactor(SplitMps(Splits(st.ev), st.metersDone), lpm);
    } else {
      CancelFactor(PaceMps(st.ev), lpm);
      PositiveQuotient(st.ledsPerSec, lpm);
    }
  }

  /** Metres advance at the state's pace, and only forward. */
  lemma StepCountsMeters(st: TrackState, rail: int, dt: real)
    requires TrackValid(st, rail) && !st.done && dt > 0.0
    ensures Step(st, rail, dt).metersDone == st.metersDone + Pace(st) * dt
    ensures Step(st, rail, dt).metersDone > st.metersDone
  {
    VelocityIsPace(st, rail);
    assert Pace(st) * dt > 0.0 by {
      PositiveProduct(Pace(st), dt);
    }
    assert AdvancedMeters(st, rail, dt) == st.metersDone + Pace(st) * dt;
  }

  /**
   * A constant-pace state subtracts exactly one rail for every traversal it
   * counts, and never counts past the target.
   */
  lemma SettleCountsTraversals(st: TrackState, rail: int, x: real, m: real)
    requires rail > 0 && !st.useSplits && st.traversalsDone < st.traversalsNeeded
    ensures var next := Settle(st, rail, x, m);
      && st.traversalsDone <= next.traversalsDone <= st.traversalsNeeded
      && next.pos == x - ((next.traversalsDone - st.traversalsDone) * rail) as real
      && (next.done <==> next.traversalsDone >= st.traversalsNeeded)
  {
  }

  /**
   * After the wrap loop a head that moved forward from the rail is not
   * behind its start, and a tracker that is still live is on the rail.
   */
  lemma SettleStaysOnRail(st: TrackState, rail: int, x: real, m: real)
    requires rail > 0 && (!st.useSplits ==> st.traversalsDone < st.traversalsNeeded)
    requires x >= 0.0
    ensures Settle(st, rail, x, m).pos >= 0.0
    ensures !Settle(st, rail, x, m).done ==> Settle(st, rail, x, m).pos < rail as real
  {
    TraversalStepsBounds(x, rail, !st.useSplits, st.traversalsDone, st.traversalsNeeded);
  }

  /** A constant-pace tick moves the head by `v * dt`, less one rail per traversal counted. */
  lemma StepCountsTraversals(st: TrackState, rail: int, dt: real)
    requires TrackValid(st, rail) && !st.done && dt > 0.0 && !st.useSplits
    ensures var next := Step(st, rail, dt);
      && st.traversalsDone <= next.traversalsDone <= st.traversalsNeeded
      && next.pos == st.pos + st.ledsPerSec * dt - ((next.traversalsDone - st.traversalsDone) * rail) as real
      && (next.done <==> next.traversalsDone >= st.traversalsNeeded)
  {
    SettleCountsTraversals(st, rail, AdvancedPos(st, rail, dt), AdvancedMeters(st, rail, dt));
  }

  /** Settling a valid tracker whose head and metres moved forward keeps it valid. */
  lemma SettleKeepsTrack(st: TrackState, rail: int, x: real, m: real)
    requires TrackValid(st, rail) && !st.done && x >= 0.0 && m >= st.metersDone
    ensures TrackValid(Settle(st, rail, x, m), rail)
    ensures !Settle(st, rail, x, m).done ==> Settle(st, rail, x, m).pos < rail as real
    ensures Settle(st, rail, x, m).ev == st.ev && Settle(st, rail, x, m).levels == st.levels
  {
    SettleStaysOnRail(st, rail, x, m);
    if !st.useSplits {
      SettleCountsTraversals(st, rail, x, m);
    }
  }

  /** One tick keeps a tracker valid, and one that is still live has its head on the rail. */
  lemma StepKeepsTrack(st: TrackState, rail: int, dt: real)
    requires TrackValid(st, rail) && !st.done && dt > 0.0
    ensures TrackValid(Step(st, rail, dt), rail)
    ensures !Step(st, rail, dt).done ==> Step(st, rail, dt).pos < rail as real
    ensures Step(st, rail, dt).ev == st.ev && Step(st, rail, dt).levels == st.levels
  {
    assert AdvancedPos(st, rail, dt) >= 0.0 by {
      MulMonotone(Velocity(st, rail), 0.0, dt);
    }
    assert AdvancedMeters(st, rail, dt) >= st.metersDone by {
      StepCountsMeters(st, rail, dt);
    }
    SettleKeepsTrack(st, rail, AdvancedPos(st, rail, dt), AdvancedMeters(st, rail, dt));
  }

  /** `Advance`: done trackers are skipped; live ones take a step. */
  function Advance(st: TrackState, rail: int, dt: real): TrackState
    requires TrackValid(st, rail) && dt > 0.0
  {
    if st.done then st else Step(st, rail, dt)
  }

  /** The start-up speed: the constant one, or the first segment's for a split-pace state. */
  function StartVelocity(st: TrackState): real
    requires st.ev.lapsM != 0
  {
    if !st.useSplits then st.ledsPerSec else FirstSegmentMps(Splits(st.ev)) * LedsPerMeter(st.ev)
  }

  /** The metres per second that the start-up speed stands for. */
  function StartPace(st: TrackState): real
  {
    if !st.useSplits then PaceMps(st.ev) else FirstSegmentMps(Splits(st.ev))
  }

  /** The head after the start-up delay. */
  function DelayedPos(st: TrackState, delay: real): real
    requires st.ev.lapsM != 0
  {
    st.pos + StartVelocity(st) * delay
  }

  /** The metres counted after the start-up delay, converted back from the LED speed. */
  function DelayedMeters(st: TrackState, delay: real): real
    requires st.ev.lapsM != 0 && st.ev.railLeds != 0
  {
    st.metersDone + (StartVelocity(st) / LedsPerMeter(st.ev)) * delay
  }

  /** Start-up compensation of one tracker, applied only when the measured delay is positive. */
  function Delayed(st: TrackState, delay: real): TrackState
    requires st.ev.lapsM != 0 && st.ev.railLeds != 0
  {
    if delay > 0.0 then st.(pos := DelayedPos(st, delay), metersDone := DelayedMeters(st, delay))
    else st
  }

  /** The delay moves a tracker forward at its start-up pace and keeps it valid. */
  lemma DelayKeepsTrack(st: TrackState, rail: int, delay: real)
    requires TrackValid(st, rail) && delay >= 0.0
    ensures TrackValid(Delayed(st, delay), rail)
    ensures Delayed(st, delay).metersDone == st.metersDone + StartPace(st) * delay
  {
    DelayMoves(st, rail, delay);
    if delay > 0.0 {
      MoveKeepsTrack(st, rail, DelayedPos(st, delay), DelayedMeters(st, delay));
    } else {
      ZeroDelay(StartPace(st), delay);
    }
  }

  /** The delayed head is still off the start, and the metres grow at the start-up pace. */
  lemma DelayMoves(st: TrackState, rail: int, delay: real)
    requires TrackValid(st, rail) && delay >= 0.0
    ensures DelayedPos(st, delay) >= 0.0
    ensures DelayedMeters(st, delay) == st.metersDone + StartPace(st) * delay
    ensures DelayedMeters(st, delay) >= st.metersDone
  {
    DelayArithmetic(StartVelocity(st), LedsPerMeter(st.ev), StartPace(st), delay);
  }

  lemma ZeroDelay(mps: real, delay: real)
    requires delay >= 0.0 && !(delay > 0.0)
    ensures mps * delay == 0.0
  {
    assert delay == 0.0;
  }

  /** Moving a tracker forward and counting more metres keeps it valid. */
  lemma MoveKeepsTrack(st: TrackState, rail: int, pos: real, meters: real)
    requires TrackValid(st, rail) && pos >= 0.0 && meters >= st.metersDone
    ensures TrackValid(st.(pos := pos, metersDone := meters), rail)
  {
  }

  lemma DelayArithmetic(v0: real, lpm: real, mps: real, delay: real)
    requires v0 == mps * lpm && v0 > 0.0 && lpm > 0.0 && delay >= 0.0
    ensures v0 / lpm == mps && v0 * delay >= 0.0 && mps * delay >= 0.0
  {
    CancelFactor(mps, lpm);
    PositiveQuotientFactor(mps, lpm);
    MulMonotone(v0, 0.0, delay);
    MulMonotone(mps, 0.0, delay);
  }
}
