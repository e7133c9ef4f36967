/**
 * The two single-event runners of `Runner` (GUI1.py:196-328), one tick at a
 * time. Each keeps a framebuffer (`fb`), the head position `pos_f` in LEDs
 * and the `meters_done` counter. Tick length `dt` and the measured start-up
 * delay are parameters. Next to each runner stand the functions that give
 * its state after `k` ticks, with what they promise.
 */
module Pacing {
  import opened Numbers
  import opened Colors
  import opened Events
  import opened Tracking
  import opened Trails

  // ---------------------------------------------------------------------
  // Constant pace (`run_event`)

  /** `meters_done` after `k` ticks at `mps` metres per second, from `m0`. */
  function MetersAtPace(mps: real, m0: real, dt: real, k: nat): real
  {
    if k == 0 then m0 else MetersAtPace(mps, m0, dt, k - 1) + mps * dt
  }

  /** Metres done grow linearly: the pace times the time run. */
  lemma {:induction false} MetersAtPaceIsLinear(mps: real, m0: real, dt: real, k: nat)
    ensures MetersAtPace(mps, m0, dt, k) == m0 + mps * (k as real * dt)
  {
    if k > 0 {
      MetersAtPaceIsLinear(mps, m0, dt, k - 1);
      assert k as real * dt == (k - 1) as real * dt + dt;
      assert mps * (k as real * dt) == mps * ((k - 1) as real * dt) + mps * dt;
    }
  }

  /** `pos_f` after `k` ticks: advance by `step` (`v * dt`), then wrap onto the rail. */
  function WrappedHead(step: real, p0: real, rail: int, k: nat): real
    requires rail > 0
  {
    if k == 0 then p0 else Wrapped(WrappedHead(step, p0, rail, k - 1) + step, rail)
  }

  /** How many whole rails the wrap loops of the first `k` ticks took away. */
  function RailsWrapped(step: real, p0: real, rail: int, k: nat): nat
    requires rail > 0
  {
    if k == 0 then 0
    else RailsWrapped(step, p0, rail, k - 1) + Wraps(WrappedHead(step, p0, rail, k - 1) + step, rail)
  }

  /** The head is where the distance travelled puts it, less whole rails. */
  lemma {:induction false} WrappedHeadIsTravelLessRails(step: real, p0: real, rail: int, k: nat)
    requires rail > 0
    ensures WrappedHead(step, p0, rail, k)
      == p0 + k as real * step - (RailsWrapped(step, p0, rail, k) * rail) as real
  {
    if k > 0 {
      WrappedHeadIsTravelLessRails(step, p0, rail, k - 1);
      var w := WrapsAtTick(step, p0, rail, k);
      IntDistribute(RailsWrapped(step, p0, rail, k - 1), w, rail);
      assert k as real * step == (k - 1) as real * step + step;
    }
  }

  /** Tick `k` subtracts `w` whole rails, and the running count takes them in. */
  lemma WrapsAtTick(step: real, p0: real, rail: int, k: nat) returns (w: nat)
    requires rail > 0 && k >= 1
    ensures WrappedHead(step, p0, rail, k) == WrappedHead(step, p0, rail, k - 1) + step - (w * rail) as real
    ensures RailsWrapped(step, p0, rail, k) == RailsWrapped(step, p0, rail, k - 1) + w
  {
    w := Wraps(WrappedHead(step, p0, rail, k - 1) + step, rail);
    WrappedIsLessRails(WrappedHead(step, p0, rail, k - 1) + step, rail);
  }

  /** A head moving forward from a non-negative start is on the rail after every tick. */
  lemma {:induction false} WrappedHeadOnRail(step: real, p0: real, rail: int, k: nat)
    requires rail > 0 && p0 >= 0.0 && step >= 0.0
    ensures 0.0 <= WrappedHead(step, p0, rail, k)
    ensures k >= 1 ==> WrappedHead(step, p0, rail, k) < rail as real
  {
    if k > 0 {
      WrappedHeadOnRail(step, p0, rail, k - 1);
      WrappedInRail(WrappedHead(step, p0, rail, k - 1) + step, rail);
    }
  }

  /** The locals of `run_event` for one constant-pace event. */
  class ConstantPaceRun {
    const ev: PaceEvent
    const rail: int
    const lpm: real
    const ledsPerSec: real
    const levels: seq<Rgb>
    const fb: array<Rgb>
    var pos: real
    var metersDone: real

    ghost predicate Valid()
      reads this
    {
      && rail > 0 && fb.Length == rail && ev.lapsM > 0
      && lpm == LedsPerMeter(ev) && lpm != 0.0
      && ledsPerSec == LedsPerSec(ev) && ledsPerSec > 0.0
      && levels == TrailLevels(ev.color, ev.trailLen)
      && pos >= 0.0
    }

    /** A blank framebuffer, the head on the start LED, no metres run. */
    constructor (ev: PaceEvent, rail: int)
      requires rail > 0 && ev.lapsM > 0 && LedsPerSec(ev) > 0.0
      ensures Valid() && this.ev == ev && this.rail == rail
      ensures pos == StartPosition(ev.startLed, rail) as real && metersDone == 0.0
      ensures fresh(fb) && fb[..] == Blank(rail)
    {
      this.ev := ev;
      this.rail := rail;
      lpm := LedsPerMeter(ev);
      ledsPerSec := LedsPerSec(ev);
      levels := TrailLevels(ev.color, ev.trailLen);
      fb := new Rgb[rail](_ => BLACK);
      pos := StartPosition(ev.startLed, rail) as real;
      metersDone := 0.0;
      new;
      assert fb[..] == Blank(rail);
    }

    /** Start-up compensation: move ahead as if the measured delay had been run. */
    method PreAdvance(delay: real)
      requires Valid() && delay >= 0.0
      modifies this
      ensures Valid()
      ensures pos == old(pos) + ledsPerSec * delay
      ensures metersDone == old(metersDone) + PaceMps(ev) * delay
    {
      assert ledsPerSec * delay >= 0.0 by { MulMonotone(ledsPerSec, 0.0, delay); }
      assert ledsPerSec / lpm == PaceMps(ev) by { CancelFactor(PaceMps(ev), lpm); }
      pos := pos + ledsPerSec * delay;
      metersDone := metersDone + (ledsPerSec / lpm) * delay;
    }

    /**
     * One tick: advance, wrap, and either report completion before drawing
     * or redraw the trail with its head on the integer part of `pos`.
     */
    method Tick(dt: real) returns (finished: bool)
      requires Valid() && dt > 0.0
      modifies this, fb
      ensures Valid()
      ensures pos == Wrapped(old(pos) + ledsPerSec * dt, rail) && pos < rail as real
      ensures metersDone == old(metersDone) + PaceMps(ev) * dt
      ensures finished <==> metersDone >= ev.distanceM as real
      ensures finished ==> fb[..] == old(fb[..])
      ensures !finished ==> fb[..] == Painted(Blank(rail), pos.Floor, levels, ev.trailLen)
    {
      Advance(dt);
      if metersDone >= ev.distanceM as real {
        return true;
      }
      Redraw(fb, Trunc(pos), levels, ev.trailLen);
      return false;
    }

    /** Move by `v * dt`, count the metres, and run the wrap loop. */
    method Advance(dt: real)
      requires Valid() && dt > 0.0
      modifies this
      ensures Valid()
      ensures pos == Wrapped(old(pos) + ledsPerSec * dt, rail) && pos < rail as real
      ensures metersDone == old(metersDone) + PaceMps(ev) * dt
    {
      assert ledsPerSec * dt >= 0.0 by { MulMonotone(ledsPerSec, 0.0, dt); }
      assert ledsPerSec / lpm == PaceMps(ev) by { CancelFactor(PaceMps(ev), lpm); }
      var x := pos + ledsPerSec * dt;
      metersDone := metersDone + (ledsPerSec / lpm) * dt;
      var n;
      pos, n := WrapPosition(x, rail);
    }
  }

  /** `fb = [(0,0,0)] * rail_leds`, then the overwriting trail draw. */
  method Redraw(fb: array<Rgb>, head: int, levels: seq<Rgb>, trailLen: int)
    requires TrailFits(fb.Length, head, |levels|, trailLen)
    modifies fb
    ensures fb[..] == Painted(Blank(fb.Length), head, levels, trailLen)
  {
    forall i | 0 <= i < fb.Length {
      fb[i] := BLACK;
    }
    assert fb[..] == Blank(fb.Length);
    DrawTrail(fb, head, levels, trailLen);
  }

  // ---------------------------------------------------------------------
  // Split pace (`run_event_with_splits`)

  /**
   * `meters_done` after `k` split-paced ticks: each tick runs at the pace of
   * the 100 m segment the counter is in when the tick starts.
   */
  function SplitMeters(splits: seq<real>, m0: real, dt: real, k: nat): (m: real)
    requires |splits| >= 1 && AllPositive(splits) && m0 >= 0.0 && dt >= 0.0
    ensures m >= m0
  {
    if k == 0 then m0 else SplitStep(splits, SplitMeters(splits, m0, dt, k - 1), dt)
  }

  /** One split-paced tick of the counter. */
  function SplitStep(splits: seq<real>, m: real, dt: real): (next: real)
    requires |splits| >= 1 && AllPositive(splits) && m >= 0.0 && dt >= 0.0
    ensures next >= m
  {
    MulMonotone(SplitMps(splits, m), 0.0, dt);
    m + SplitMps(splits, m) * dt
  }

  /** LEDs the head moves in a tick that starts with `m` metres done: `v * dt` at that segment's pace. */
  function SplitLeds(splits: seq<real>, lpm: real, m: real, dt: real): real
    requires |splits| >= 1 && AllPositive(splits) && m >= 0.0
  {
    SplitMps(splits, m) * lpm * dt
  }

  /** `pos_f` after `k` split-paced ticks, from `p0`; this runner never wraps it. */
  function SplitHead(splits: seq<real>, lpm: real, p0: real, m0: real, dt: real, k: nat): real
    requires |splits| >= 1 && AllPositive(splits) && m0 >= 0.0 && dt >= 0.0
  {
    if k == 0 then p0
    else SplitHead(splits, lpm, p0, m0, dt, k - 1) + SplitLeds(splits, lpm, SplitMeters(splits, m0, dt, k - 1), dt)
  }

  /**
   * Every segment runs at `rate` metres per second or faster (`rate * split <=
   * 100` for every split), so the counter keeps at least level with a runner
   * at that constant rate: it passes any distance in finitely many ticks.
   */
  lemma {:induction false} SplitMetersAtLeast(splits: seq<real>, m0: real, dt: real, k: nat, rate: real)
    requires |splits| >= 1 && AllPositive(splits) && m0 >= 0.0 && dt >= 0.0
    requires forall i :: 0 <= i < |splits| ==> rate * splits[i] <= 100.0
    ensures SplitMeters(splits, m0, dt, k) >= MetersAtPace(rate, m0, dt, k)
  {
    if k > 0 {
      SplitMetersAtLeast(splits, m0, dt, k - 1, rate);
      SplitStepAtLeast(splits, SplitMeters(splits, m0, dt, k - 1), dt, rate);
    }
  }

  /** One split-paced tick covers at least what a runner at `rate` covers. */
  lemma SplitStepAtLeast(splits: seq<real>, m: real, dt: real, rate: real)
    requires |splits| >= 1 && AllPositive(splits) && m >= 0.0 && dt >= 0.0
    requires forall i :: 0 <= i < |splits| ==> rate * splits[i] <= 100.0
    ensures SplitStep(splits, m, dt) >= m + rate * dt
  {
    var s := splits[SegmentIndex(m, |splits|)];
    assert SplitMps(splits, m) >= rate by {
      AtLeastRate(rate, SplitMps(splits, m), s);
    }
    MulMonotone(dt, rate, SplitMps(splits, m));
  }

  lemma AtLeastRate(rate: real, mps: real, s: real)
    requires mps * s == 100.0 && rate * s <= 100.0 && s > 0.0
    ensures mps >= rate
  {
    assert (mps - rate) * s >= 0.0;
  }

  /** The locals of `run_event_with_splits` for one event with split times. */
  class SplitPaceRun {
    const ev: PaceEvent
    const rail: int
    const lpm: real
    const splits: seq<real>
    const levels: seq<Rgb>
    const fb: array<Rgb>
    var pos: real
    var metersDone: real

    ghost predicate Valid()
      reads this
    {
      && rail > 0 && fb.Length == rail && ev.lapsM > 0 && ev.railLeds != 0
      && lpm == LedsPerMeter(ev) && lpm != 0.0
      && splits == Splits(ev) && |splits| >= 1 && AllPositive(splits)
      && levels == TrailLevels(ev.color, ev.trailLen)
      && metersDone >= 0.0
    }

    /** A blank framebuffer, the head on the start LED, no metres run. */
    constructor (ev: PaceEvent, rail: int)
      requires rail > 0 && ev.lapsM > 0 && ev.railLeds != 0
      requires UsesSplits(ev) && AllPositive(Splits(ev))
      ensures Valid() && this.ev == ev && this.rail == rail
      ensures pos == StartPosition(ev.startLed, rail) as real && metersDone == 0.0
      ensures fresh(fb) && fb[..] == Blank(rail)
    {
      this.ev := ev;
      this.rail := rail;
      lpm := LedsPerMeter(ev);
      splits := Splits(ev);
      levels := TrailLevels(ev.color, ev.trailLen);
      fb := new Rgb[rail](_ => BLACK);
      pos := StartPosition(ev.startLed, rail) as real;
      metersDone := 0.0;
      new;
      assert fb[..] == Blank(rail);
    }

    /** Start-up compensation at the first segment's pace. */
    method PreAdvance(delay: real)
      requires Valid() && delay >= 0.0
      modifies this
      ensures Valid()
      ensures pos == old(pos) + FirstSegmentMps(splits) * lpm * delay
      ensures metersDone == old(metersDone) + FirstSegmentMps(splits) * delay
    {
      var firstV := FirstSegmentMps(splits) * lpm;
      assert firstV / lpm == FirstSegmentMps(splits) by { CancelFactor(FirstSegmentMps(splits), lpm); }
      assert FirstSegmentMps(splits) * delay >= 0.0 by { MulMonotone(FirstSegmentMps(splits), 0.0, delay); }
      pos := pos + firstV * delay;
      metersDone := metersDone + (firstV / lpm) * delay;
    }

    /**
     * One tick: advance at the current segment's pace, redraw the trail with
     * its head on `int(pos_f % rail)`, then report whether the distance is run.
     */
    method Tick(dt: real) returns (finished: bool)
      requires Valid() && dt > 0.0
      modifies this, fb
      ensures Valid()
      ensures pos == old(pos) + SplitLeds(splits, lpm, old(metersDone), dt)
      ensures metersDone == SplitStep(splits, old(metersDone), dt)
      ensures metersDone > old(metersDone)
      ensures pos - old(pos) == lpm * (metersDone - old(metersDone))
      ensures fb[..] == Painted(Blank(rail), pos.Floor % rail, levels, ev.trailLen)
      ensures finished <==> metersDone >= ev.distanceM as real
    {
      var seg := SegmentIndex(metersDone, |splits|);
      var mps := 100.0 / splits[seg];
      var v := mps * lpm;
      assert v / lpm == mps by { CancelFactor(mps, lpm); }
      assert mps * dt > 0.0 by { PositiveProduct(mps, dt); }
      assert v * dt == lpm * (mps * dt);
      pos := pos + v * dt;
      metersDone := metersDone + (v / lpm) * dt;
      TruncFloorMod(pos, rail);
      Redraw(fb, Trunc(FloorMod(pos, rail)), levels, ev.trailLen);
      finished := metersDone >= ev.distanceM as real;
    }
  }
}
