/**
 * The per-tick arithmetic of the position tracker (GUI1.py:209-241,
 * 279-307, 357, 384, 411-430): start offset, split-segment selection,
 * velocities, and the loops that wrap the head back onto the rail.
 */
module Tracking {
  import opened Wrappers
  import opened Numbers
  import opened Events

  /** `(ev.start_led % rail_leds) if (ev.start_led is not None and rail_leds > 0) else 0`. */
  function StartPosition(startLed: Option<int>, rail: int): (p: int)
    ensures rail > 0 ==> 0 <= p < rail
    ensures startLed.None? || rail <= 0 ==> p == 0
    ensures rail > 0 && startLed.Some? ==> (startLed.value - p) % rail == 0
  {
    if startLed.Some? && rail > 0 then
      DivModUnique(startLed.value - startLed.value % rail, rail, startLed.value / rail, 0);
      startLed.value % rail
    else 0
  }

  lemma StartPositionExamples()
    ensures StartPosition(Some(191), 200) == 191
    ensures StartPosition(Some(391), 200) == 191
    ensures StartPosition(Some(-9), 200) == 191
    ensures StartPosition(Some(191), 0) == 0
  {
  }

  /** `int(min(len(splits) - 1, meters_done // 100))`: the 100 m segment being run. */
  function SegmentIndex(metersDone: real, count: int): (idx: int)
    ensures count >= 1 && metersDone >= 0.0 ==> 0 <= idx < count
  {
    Min(count - 1, (metersDone / 100.0).Floor)
  }

  /**
   * The segment is the one whose 100 m stretch holds `metersDone`, except
   * that past the last stretch the last segment stays in use.
   */
  lemma SegmentIndexCovers(metersDone: real, count: int)
    requires count >= 1 && metersDone >= 0.0
    ensures var idx := SegmentIndex(metersDone, count);
      && (metersDone < 100.0 * (count - 1) as real ==>
            100.0 * idx as real <= metersDone < 100.0 * (idx + 1) as real)
      && (metersDone >= 100.0 * (count - 1) as real ==> idx == count - 1)
  {
  }

  /** With 8 splits, 350 m run selects `splits[3]`; anything past 700 m stays on `splits[7]`. */
  lemma SegmentIndexExamples()
    ensures SegmentIndex(350.0, 8) == 3
    ensures SegmentIndex(0.0, 8) == 0
    ensures SegmentIndex(799.5, 8) == 7
    ensures SegmentIndex(1000.0, 8) == 7
  {
  }

  predicate AllPositive(splits: seq<real>)
  {
    forall i :: 0 <= i < |splits| ==> splits[i] > 0.0
  }

  /** `100.0 / splits[seg_idx]`: metres per second in the current segment. */
  function SplitMps(splits: seq<real>, metersDone: real): (mps: real)
    requires |splits| >= 1 && metersDone >= 0.0 && AllPositive(splits)
    ensures mps > 0.0
    ensures mps * splits[SegmentIndex(metersDone, |splits|)] == 100.0
  {
    100.0 / splits[SegmentIndex(metersDone, |splits|)]
  }

  /**
   * The speed used for start-up compensation in split mode: the first
   * segment's, with a first split that is missing or not positive read as 1e-9 s.
   */
  function FirstSegmentMps(splits: seq<real>): (mps: real)
    ensures mps > 0.0
    ensures |splits| > 0 && splits[0] > 0.0 ==> mps * splits[0] == 100.0
    ensures !(|splits| > 0 && splits[0] > 0.0) ==> mps == 100_000_000_000.0
  {
    100.0 / (if |splits| > 0 && splits[0] > 0.0 then splits[0] else 0.000_000_001)
  }

  // ---------------------------------------------------------------------
  // Wrapping

  /** How many times `while pos >= rail: pos -= rail` subtracts. */
  function Wraps(x: real, rail: int): nat
    requires rail > 0
    decreases if x < rail as real then 0 else x.Floor
  {
    if x < rail as real then 0 else 1 + Wraps(x - rail as real, rail)
  }

  /** The position `while pos >= rail: pos -= rail` leaves. */
  function Wrapped(x: real, rail: int): real
    requires rail > 0
    decreases if x < rail as real then 0 else x.Floor
  {
    if x < rail as real then x else Wrapped(x - rail as real, rail)
  }

  /** The wrap loop takes away exactly `Wraps` whole rails. */
  lemma {:induction false} WrappedIsLessRails(x: real, rail: int)
    requires rail > 0
    ensures Wrapped(x, rail) == x - (Wraps(x, rail) * rail) as real
    decreases if x < rail as real then 0 else x.Floor
  {
    if x >= rail as real {
      WrappedIsLessRails(x - rail as real, rail);
      IntDistribute(1, Wraps(x - rail as real, rail), rail);
    }
  }

  /** If `m` whole rails fit under `x`, at least `m` subtractions happen. */
  lemma {:induction false} WrapsAtLeast(x: real, rail: int, m: nat)
    requires rail > 0 && (m * rail) as real <= x
    ensures m <= Wraps(x, rail)
  {
    if m > 0 {
      IntDistribute(m - 1, 1, rail);
      MulAtLeast(m, rail);
      WrapsAtLeast(x - rail as real, rail, m - 1);
    }
  }

  /** ... and once what is left is below one rail, exactly `m` happened. */
  lemma {:induction false} WrapsExactly(x: real, rail: int, m: nat)
    requires rail > 0
    requires (m * rail) as real <= x < ((m + 1) * rail) as real
    ensures Wraps(x, rail) == m
  {
    IntDistribute(m, 1, rail);
    if m > 0 {
      IntDistribute(m - 1, 1, rail);
      MulAtLeast(m, rail);
      WrapsExactly(x - rail as real, rail, m - 1);
    }
  }

  /** A non-negative position wraps into `[0, rail)`; one already there is left alone. */
  lemma {:induction false} WrappedInRail(x: real, rail: int)
    requires rail > 0
    ensures x >= 0.0 ==> 0.0 <= Wrapped(x, rail) < rail as real
    ensures x < rail as real ==> Wrapped(x, rail) == x
    decreases if x < rail as real then 0 else x.Floor
  {
    if x >= rail as real {
      WrappedInRail(x - rail as real, rail);
    }
  }

  /** `while pos_f >= rail_leds: pos_f -= rail_leds` (single constant-pace run). */
  method WrapPosition(x: real, rail: int) returns (p: real, n: nat)
    requires rail > 0
    ensures n == Wraps(x, rail) && p == Wrapped(x, rail) && p == x - (n * rail) as real
    ensures p < rail as real && (x >= 0.0 ==> 0.0 <= p)
  {
    p, n := x, 0;
    while p >= rail as real
      invariant p == x - (n * rail) as real
      invariant Wraps(x, rail) == n + Wraps(p, rail) && Wrapped(x, rail) == Wrapped(p, rail)
      decreases Wraps(p, rail)
    {
      IntDistribute(n, 1, rail);
      p, n := p - rail as real, n + 1;
    }
    WrappedInRail(x, rail);
  }

  /**
   * How many subtractions the compositor's wrap loop makes: all of them for a
   * split-pace event, at most the traversals still `needed` for a
   * constant-pace one.
   */
  function TraversalSteps(x: real, rail: int, counting: bool, done0: int, needed: int): nat
    requires rail > 0 && (counting ==> done0 < needed)
  {
    if counting then Min(Wraps(x, rail), needed - done0) else Wraps(x, rail)
  }

  /** The position the compositor's wrap loop leaves: `x` less one rail per subtraction. */
  function TraversalPos(x: real, rail: int, counting: bool, done0: int, needed: int): real
    requires rail > 0 && (counting ==> done0 < needed)
  {
    x - (TraversalSteps(x, rail, counting, done0, needed) * rail) as real
  }

  /**
   * After the counted wrap loop a non-negative position stays non-negative,
   * and unless the loop stopped on reaching `needed` the position is on the rail.
   */
  lemma TraversalStepsBounds(x: real, rail: int, counting: bool, done0: int, needed: int)
    requires rail > 0 && (counting ==> done0 < needed)
    ensures x >= 0.0 ==> 0.0 <= TraversalPos(x, rail, counting, done0, needed)
    ensures !(counting && done0 + TraversalSteps(x, rail, counting, done0, needed) >= needed) ==>
      TraversalPos(x, rail, counting, done0, needed) < rail as real
  {
    var n := TraversalSteps(x, rail, counting, done0, needed);
    var w := Wraps(x, rail);
    WrappedInRail(x, rail);
    WrappedIsLessRails(x, rail);
    assert n * rail <= w * rail by {
      MulMonotoneInt(n, w, rail);
    }
  }

  /**
   * The wrap loop of the parallel compositor: each subtraction of a
   * constant-pace event counts one traversal, and the loop stops as soon as
   * the count reaches `needed`; split-pace events wrap without counting.
   */
  method WrapTraversals(x: real, rail: int, counting: bool, done0: int, needed: int)
    returns (p: real, doneCount: int, reached: bool)
    requires rail > 0 && (counting ==> done0 < needed)
    ensures p == TraversalPos(x, rail, counting, done0, needed)
    ensures var n := TraversalSteps(x, rail, counting, done0, needed);
      doneCount == (if counting then done0 + n else done0)
    ensures reached <==> counting && doneCount >= needed
    ensures !reached ==> p < rail as real
    ensures x >= 0.0 ==> 0.0 <= p
  {
    p, doneCount, reached := x, done0, false;
    ghost var n: nat := 0;
    while p >= rail as real
      invariant p == x - (n * rail) as real
      invariant Wraps(x, rail) == n + Wraps(p, rail)
      invariant doneCount == (if counting then done0 + n else done0)
      invariant counting ==> doneCount < needed
      invariant !reached
      decreases Wraps(p, rail)
    {
      IntDistribute(n, 1, rail);
      p, n := p - rail as real, n + 1;
      if counting {
        doneCount := doneCount + 1;
        if doneCount >= needed {
          reached := true;
          break;
        }
      }
    }
    assert n == TraversalSteps(x, rail, counting, done0, needed);
    TraversalStepsBounds(x, rail, counting, done0, needed);
  }
}
