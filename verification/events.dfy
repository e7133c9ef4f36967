/**
 * `PaceEvent` (GUI1.py:145-174): one paced run on the rail, and the
 * quantities derived from it on demand.
 */
module Events {
  import opened Wrappers
  import opened Numbers
  import opened Colors

  /**
   * The event as the form builds it. `targetTimeS` is a float in Python; the
   * per-100 m split times (`splits_100`) are optional floats.
   */
  datatype PaceEvent = PaceEvent(
    name: string,
    distanceM: int,
    railLeds: int,
    targetTimeS: real,
    lapsM: int,
    color: Rgb,
    trailLen: int,
    splits100: Option<seq<real>>,
    startLed: Option<int>)

  /** `ev.splits_100 or []`: a missing list and an empty one behave alike. */
  function Splits(ev: PaceEvent): seq<real>
  {
    if ev.splits100.Some? then ev.splits100.value else []
  }

  /** The truth value of `ev.splits_100`, which switches an event to split pacing. */
  predicate UsesSplits(ev: PaceEvent)
  {
    |Splits(ev)| > 0
  }

  /** `pace_mps`: metres per second, 0 when the target time is not positive. */
  function PaceMps(ev: PaceEvent): (mps: real)
    ensures ev.targetTimeS > 0.0 ==> mps * ev.targetTimeS == ev.distanceM as real
    ensures ev.targetTimeS <= 0.0 ==> mps == 0.0
    ensures ev.targetTimeS > 0.0 && ev.distanceM > 0 ==> mps > 0.0
  {
    if ev.targetTimeS > 0.0 then ev.distanceM as real / ev.targetTimeS else 0.0
  }

  /** `leds_per_meter`: the rail stands for one lap, so LEDs per metre is rail/lap. */
  function LedsPerMeter(ev: PaceEvent): (lpm: real)
    requires ev.lapsM != 0
    ensures lpm * ev.lapsM as real == ev.railLeds as real
    ensures ev.lapsM > 0 ==> (lpm > 0.0 <==> ev.railLeds > 0)
  {
    ev.railLeds as real / ev.lapsM as real
  }

  /** The constant-pace head velocity in LEDs per second: `pace_mps() * leds_per_meter()`. */
  function LedsPerSec(ev: PaceEvent): (v: real)
    requires ev.lapsM != 0
    ensures ev.targetTimeS <= 0.0 || ev.railLeds == 0 ==> v == 0.0
    ensures ev.targetTimeS > 0.0 && ev.distanceM > 0 && ev.lapsM > 0 && ev.railLeds > 0 ==> v > 0.0
  {
    PaceMps(ev) * LedsPerMeter(ev)
  }

  /** 400 m in 60 s on a 200-LED rail standing for a 400 m lap moves 10/3 LEDs per second. */
  lemma LedsPerSecExample()
    ensures LedsPerSec(PaceEvent("400", 400, 200, 60.0, 400, GREEN, 5, None, None)) == 10.0 / 3.0
  {
  }

  /**
   * `total_led_traversals`: how many times the head crosses the rail,
   * `max(1, ceil(distance / lap))`.
   */
  function TotalLedTraversals(ev: PaceEvent): (n: int)
    requires ev.lapsM != 0
    ensures n >= 1
    ensures ev.lapsM > 0 && ev.distanceM > 0 ==> (n - 1) * ev.lapsM < ev.distanceM <= n * ev.lapsM
  {
    Max(1, CeilDiv(ev.distanceM, ev.lapsM))
  }

  /** For positive lengths the traversal count is the integer ceiling `(d + l - 1) / l`. */
  lemma TraversalsIsIntegerCeiling(ev: PaceEvent)
    requires ev.lapsM > 0 && ev.distanceM > 0
    ensures TotalLedTraversals(ev) == (ev.distanceM + ev.lapsM - 1) / ev.lapsM
  {
    var n := TotalLedTraversals(ev);
    var d, l := ev.distanceM, ev.lapsM;
    DivModUnique(d + l - 1, l, n, d + l - 1 - n * l);
  }

  lemma TraversalsExamples()
    ensures TotalLedTraversals(PaceEvent("mile", 1609, 200, 240.0, 400, GREEN, 5, None, Some(191))) == 5
    ensures TotalLedTraversals(PaceEvent("400", 400, 200, 60.0, 400, GREEN, 5, None, None)) == 1
    ensures TotalLedTraversals(PaceEvent("none", 0, 200, 60.0, 400, GREEN, 5, None, None)) == 1
  {
  }

  // ---------------------------------------------------------------------
  // `precompute_trail`

  /**
   * The brightness factor of the level `t` steps behind the head:
   * `max(0.1, 1 - t / max(1, trail_len))`.
   */
  function TrailFactor(t: int, trailLen: int): (f: real)
    ensures f >= 0.1
    ensures 0 <= t ==> f <= 1.0
    ensures t == 0 ==> f == 1.0
  {
    MaxReal(0.1, 1.0 - t as real / Max(1, trailLen) as real)
  }

  /** A colour scaled by a factor, each channel truncated to an int. */
  function Dim(c: Rgb, f: real): Rgb
  {
    Rgb(Scale(c.r, f), Scale(c.g, f), Scale(c.b, f))
  }

  /** `int(channel * factor)`. */
  function Scale(channel: int, f: real): int
  {
    Trunc(channel as real * f)
  }

  /**
   * The trail colours, dimmest first: entry `i` is `t = trail_len - i` steps
   * behind the head. A negative `trail_len` gives no levels at all.
   */
  function TrailLevels(color: Rgb, trailLen: int): (levels: seq<Rgb>)
    ensures |levels| == if trailLen >= 0 then trailLen + 1 else 0
    ensures forall i :: 0 <= i < |levels| ==> levels[i] == Level(color, trailLen, i)
  {
    seq(if trailLen >= 0 then trailLen + 1 else 0, i => Level(color, trailLen, i))
  }

  function Level(color: Rgb, trailLen: int, i: int): Rgb
  {
    Dim(color, TrailFactor(trailLen - i, trailLen))
  }

  /** `PaceEvent.precompute_trail`: appends one level per `t = trail_len, ..., 0`. */
  method PrecomputeTrail(ev: PaceEvent) returns (levels: seq<Rgb>)
    ensures levels == TrailLevels(ev.color, ev.trailLen)
  {
    levels := [];
    var t := ev.trailLen;
    while t >= 0
      invariant t <= ev.trailLen && (ev.trailLen >= 0 ==> t >= -1) && (ev.trailLen < 0 ==> t == ev.trailLen)
      invariant levels == TrailLevels(ev.color, ev.trailLen)[..ev.trailLen - t]
      decreases t + 1
    {
      levels := levels + [Level(ev.color, ev.trailLen, ev.trailLen - t)];
      t := t - 1;
    }
  }

  predicate NonNegative(c: Rgb) { c.r >= 0 && c.g >= 0 && c.b >= 0 }

  /** Factors grow as the level gets closer to the head. */
  lemma TrailFactorMonotone(t1: int, t2: int, trailLen: int)
    requires 0 <= t2 <= t1
    ensures TrailFactor(t1, trailLen) <= TrailFactor(t2, trailLen)
  {
    var m := Max(1, trailLen) as real;
    assert t1 as real / m - t2 as real / m == (t1 - t2) as real / m;
  }

  lemma ChannelMonotone(c: int, f1: real, f2: real)
    requires c >= 0 && 0.0 <= f1 <= f2
    ensures 0 <= Scale(c, f1) <= Scale(c, f2)
  {
    MulMonotone(c as real, 0.0, f1);
    MulMonotone(c as real, f1, f2);
    FloorMonotone(c as real * f1, c as real * f2);
  }

  /** Dimming by a larger factor never gives a darker channel. */
  lemma DimMonotone(c: Rgb, f1: real, f2: real)
    requires NonNegative(c) && 0.0 <= f1 <= f2
    ensures var d1, d2 := Dim(c, f1), Dim(c, f2);
      0 <= d1.r <= d2.r && 0 <= d1.g <= d2.g && 0 <= d1.b <= d2.b
  {
    ChannelMonotone(c.r, f1, f2);
    ChannelMonotone(c.g, f1, f2);
    ChannelMonotone(c.b, f1, f2);
  }

  /** The last (brightest) level is the head colour itself. */
  lemma BrightestLevelIsColor(color: Rgb, trailLen: int)
    requires trailLen >= 0
    ensures TrailLevels(color, trailLen)[trailLen] == color
  {
    assert TrailFactor(0, trailLen) == 1.0;
    assert color.r as real * 1.0 == color.r as real;
    assert color.g as real * 1.0 == color.g as real;
    assert color.b as real * 1.0 == color.b as real;
  }

  /** Along the list the levels never get darker, channel by channel. */
  lemma TrailNonDecreasing(color: Rgb, trailLen: int, i: int, j: int)
    requires NonNegative(color)
    requires 0 <= i <= j < |TrailLevels(color, trailLen)|
    ensures var levels := TrailLevels(color, trailLen);
      levels[i].r <= levels[j].r && levels[i].g <= levels[j].g && levels[i].b <= levels[j].b
  {
    TrailFactorMonotone(trailLen - i, trailLen - j, trailLen);
    DimMonotone(color, TrailFactor(trailLen - i, trailLen), TrailFactor(trailLen - j, trailLen));
  }

  /** No level is brighter than the head colour in any channel, nor negative. */
  lemma TrailWithinColor(color: Rgb, trailLen: int, i: int)
    requires NonNegative(color)
    requires 0 <= i < |TrailLevels(color, trailLen)|
    ensures var l := TrailLevels(color, trailLen)[i];
      0 <= l.r <= color.r && 0 <= l.g <= color.g && 0 <= l.b <= color.b
  {
    DimMonotone(color, TrailFactor(trailLen - i, trailLen), 1.0);
    BrightestLevelIsColor(color, trailLen);
    assert Dim(color, 1.0) == TrailLevels(color, trailLen)[trailLen];
  }

  /** Each channel is the floor of the scaled head channel (truncation is flooring here). */
  lemma TrailIsFloored(color: Rgb, trailLen: int, i: int)
    requires NonNegative(color)
    requires 0 <= i < |TrailLevels(color, trailLen)|
    ensures var l := TrailLevels(color, trailLen)[i];
      var f := TrailFactor(trailLen - i, trailLen);
      l.r == (color.r as real * f).Floor && l.g == (color.g as real * f).Floor
        && l.b == (color.b as real * f).Floor
  {
    var f := TrailFactor(trailLen - i, trailLen);
    MulMonotone(color.r as real, 0.0, f);
    MulMonotone(color.g as real, 0.0, f);
    MulMonotone(color.b as real, 0.0, f);
  }

  /** So a head colour in byte range gives a trail in byte range. */
  lemma TrailInRange(color: Rgb, trailLen: int)
    requires InRange(color)
    ensures forall l :: l in TrailLevels(color, trailLen) ==> InRange(l)
  {
    var levels := TrailLevels(color, trailLen);
    forall l | l in levels
      ensures InRange(l)
    {
      var i :| 0 <= i < |levels| && levels[i] == l;
      TrailWithinColor(color, trailLen, i);
    }
  }
}
