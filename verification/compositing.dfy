/**
 * `Runner.run_events_parallel` (GUI1.py:329-465): up to two events on one
 * rail. Their configuration is validated first; each kept event gets a
 * tracker state; every tick the framebuffer is cleared, every live state
 * advances (constant-pace states count rail traversals, split-pace states
 * count metres) and its trail is blended additively into the framebuffer.
 */
module Compositing {
  import opened Wrappers
  import opened Numbers
  import opened Colors
  import opened Events
  import opened Tracking
  import opened Trails
  import opened Trackers

  // ---------------------------------------------------------------------
  // Validation and set-up

  /** Why a set of events cannot run together; the source raises `ValueError` for both. */
  datatype ConfigError = RailMismatch | LapMismatch

  /** `events[:2]`: only the first two events run. */
  function FirstTwo(evs: seq<PaceEvent>): (r: seq<PaceEvent>)
    ensures |r| == Min(|evs|, 2) && r == evs[..|r|]
  {
    if |evs| > 2 then evs[..2] else evs
  }

  /**
   * The validation loop from event `i` on: the first event whose rail differs
   * from the strip's or whose lap length differs from the first event's
   * decides the error, a rail mismatch taking precedence within one event.
   */
  function CheckFrom(evs: seq<PaceEvent>, rail: int, i: nat): (e: Option<ConfigError>)
    requires 1 <= |evs| && i <= |evs|
    ensures e.None? <==>
      forall j :: i <= j < |evs| ==> evs[j].railLeds == rail && evs[j].lapsM == evs[0].lapsM
    ensures e == Some(RailMismatch) ==> exists j :: i <= j < |evs| && evs[j].railLeds != rail
    ensures e == Some(LapMismatch) ==> exists j :: i <= j < |evs| && evs[j].lapsM != evs[0].lapsM
    decreases |evs| - i
  {
    if i == |evs| then None
    else if evs[i].railLeds != rail then Some(RailMismatch)
    else if evs[i].lapsM != evs[0].lapsM then Some(LapMismatch)
    else CheckFrom(evs, rail, i + 1)
  }

  /** The events can run together exactly when all use the strip's rail and the first event's lap. */
  function ConfigCheck(evs: seq<PaceEvent>, rail: int): (e: Option<ConfigError>)
    requires |evs| >= 1
    ensures e.None? <==>
      forall j :: 0 <= j < |evs| ==> evs[j].railLeds == rail && evs[j].lapsM == evs[0].lapsM
  {
    CheckFrom(evs, rail, 0)
  }

  /** Same rails but laps of 400 m and 300 m are refused; a second rail of 150 LEDs is refused first for its rail. */
  lemma ConfigCheckExamples()
    ensures ConfigCheck([PaceEvent("a", 800, 200, 120.0, 400, GREEN, 5, None, None),
                         PaceEvent("b", 800, 200, 118.0, 300, GREEN, 5, None, None)], 200) == Some(LapMismatch)
    ensures ConfigCheck([PaceEvent("a", 800, 200, 120.0, 400, GREEN, 5, None, None),
                         PaceEvent("b", 800, 150, 118.0, 300, GREEN, 5, None, None)], 200) == Some(RailMismatch)
  {
    var a := PaceEvent("a", 800, 200, 120.0, 400, GREEN, 5, None, None);
    var laps := [a, PaceEvent("b", 800, 200, 118.0, 300, GREEN, 5, None, None)];
    assert CheckFrom(laps, 200, 1) == Some(LapMismatch);
    var rails := [a, PaceEvent("b", 800, 150, 118.0, 300, GREEN, 5, None, None)];
    assert CheckFrom(rails, 200, 1) == Some(RailMismatch);
  }

  // ---------------------------------------------------------------------
  // The compositor

  /** One tracker's contribution to the frame: nothing once done, else its trail blended in. */
  function Layer(fb: seq<Rgb>, st: TrackState): seq<Rgb>
  {
    if st.done then fb else Composited(fb, Trunc(st.pos), st.levels, st.ev.trailLen)
  }

  /** The framebuffer after every tracker has been layered on, in order. */
  function Compose(fb: seq<Rgb>, sts: seq<TrackState>): (r: seq<Rgb>)
    ensures |r| == |fb|
  {
    if |sts| == 0 then fb else Layer(Compose(fb, sts[..|sts| - 1]), sts[|sts| - 1])
  }

  /** However many trails overlap, every pixel stays a byte triple. */
  lemma {:induction false} ComposeInRange(fb: seq<Rgb>, sts: seq<TrackState>)
    requires AllInRange(fb)
    ensures AllInRange(Compose(fb, sts))
  {
    if |sts| > 0 {
      var below := Compose(fb, sts[..|sts| - 1]);
      ComposeInRange(fb, sts[..|sts| - 1]);
      var top := sts[|sts| - 1];
      if !top.done {
        CompositedInRange(below, Trunc(top.pos), top.levels, top.ev.trailLen);
      }
    }
  }

  /** When every tracker is done the frame is left as it was: the final tick pushes a blank frame. */
  lemma {:induction false} ComposeAllDone(fb: seq<Rgb>, sts: seq<TrackState>)
    requires forall i :: 0 <= i < |sts| ==> sts[i].done
    ensures Compose(fb, sts) == fb
  {
    if |sts| > 0 {
      ComposeAllDone(fb, sts[..|sts| - 1]);
    }
  }

  /** Additive blending of non-negative trails does not depend on which tracker is drawn first. */
  lemma ComposeOrderIrrelevant(fb: seq<Rgb>, a: TrackState, b: TrackState)
    requires AllInRange(fb)
    requires forall l :: l in a.levels ==> NonNegative(l)
    requires forall l :: l in b.levels ==> NonNegative(l)
    ensures Compose(fb, [a, b]) == Compose(fb, [b, a])
  {
    assert [a, b][..1] == [a] && [b, a][..1] == [b];
    assert [a][..0] == [] && [b][..0] == [];
    assert Compose(fb, [a]) == Layer(fb, a);
    assert Compose(fb, [b]) == Layer(fb, b);
    var ab := Layer(Layer(fb, a), b);
    var ba := Layer(Layer(fb, b), a);
    assert Compose(fb, [a, b]) == ab;
    assert Compose(fb, [b, a]) == ba;
    forall i | 0 <= i < |fb|
      ensures ab[i] == ba[i]
    {
      var ta := StepAt(i, Trunc(a.pos), a.ev.trailLen);
      var tb := StepAt(i, Trunc(b.pos), b.ev.trailLen);
      if !a.done && !b.done && 0 <= ta < |a.levels| && 0 <= tb < |b.levels| {
        var f, la, lb := fb[i], a.levels[ta], b.levels[tb];
        assert la in a.levels && lb in b.levels;
        assert InRange(f);
        assert ab[i] == BlendAdditive(BlendAdditive(f, la), lb);
        assert ba[i] == BlendAdditive(BlendAdditive(f, lb), la);
        BlendAssociates(f, la, lb);
        BlendAssociates(f, lb, la);
        BlendCommutes(la, lb);
      }
    }
  }

  /** Replacing tracker `i` and composing up to it blends the new tracker over the earlier ones. */
  lemma ComposeUpdate(base: seq<Rgb>, sts: seq<TrackState>, i: nat, st: TrackState)
    requires i < |sts|
    ensures Compose(base, sts[i := st][..i + 1]) == Layer(Compose(base, sts[..i]), st)
  {
    assert sts[i := st][..i + 1][..i] == sts[..i];
  }

  function AdvancedUpTo(sts: seq<TrackState>, rail: int, dt: real, i: int): (r: seq<TrackState>)
    requires (forall j :: 0 <= j < |sts| ==> TrackValid(sts[j], rail)) && dt > 0.0
    ensures |r| == |sts|
  {
    seq(|sts|, j requires 0 <= j < |sts| => if j < i then Advance(sts[j], rail, dt) else sts[j])
  }

  /** Stepping tracker `i` extends the advanced prefix by one. */
  lemma AdvancedUpToStep(sts: seq<TrackState>, rail: int, dt: real, i: nat)
    requires (forall j :: 0 <= j < |sts| ==> TrackValid(sts[j], rail)) && dt > 0.0 && i < |sts|
    ensures AdvancedUpTo(sts, rail, dt, i + 1)
      == AdvancedUpTo(sts, rail, dt, i)[i := Advance(sts[i], rail, dt)]
  {
  }

  predicate AllTrack(sts: seq<TrackState>, rail: int)
  {
    forall i :: 0 <= i < |sts| ==> TrackValid(sts[i], rail)
  }

  /** The working state of `run_events_parallel`: the framebuffer and the tracker list. */
  class Compositor {
    const rail: int
    const fb: array<Rgb>
    var states: seq<TrackState>

    ghost predicate Valid()
      reads this
    {
      rail > 0 && fb.Length == rail && forall i :: 0 <= i < |states| ==> TrackValid(states[i], rail)
    }

    constructor (rail: int, states: seq<TrackState>)
      requires rail > 0 && forall i :: 0 <= i < |states| ==> TrackValid(states[i], rail)
      ensures Valid() && this.rail == rail && this.states == states
      ensures fresh(fb) && fb[..] == Blank(rail)
    {
      this.rail := rail;
      this.states := states;
      fb := new Rgb[rail](_ => BLACK);
      new;
      assert fb[..] == Blank(rail);
    }

    /** The global start-up compensation: every tracker moves ahead by the measured delay. */
    method PreAdvance(delay: real)
      requires Valid() && delay >= 0.0
      modifies this
      ensures Valid() && |states| == |old(states)|
      ensures forall i :: 0 <= i < |states| ==> states[i] == Delayed(old(states)[i], delay)
    {
      if delay > 0.0 {
        for i := 0 to |states|
          invariant |states| == |old(states)|
          invariant forall j :: 0 <= j < i ==> states[j] == Delayed(old(states)[j], delay)
          invariant forall j :: i <= j < |states| ==> states[j] == old(states)[j]
          invariant forall j :: 0 <= j < |states| ==> TrackValid(states[j], rail)
        {
          DelayKeepsTrack(states[i], rail, delay);
          states := states[i := Delayed(states[i], delay)];
        }
      }
    }

    /**
     * One frame: clear the framebuffer, step every live tracker and blend in
     * the trails of those still live; report whether every tracker was
     * already done when the tick began.
     */
    method Tick(dt: real) returns (allDone: bool)
      requires Valid() && dt > 0.0
      modifies this, fb
      ensures Valid() && |states| == |old(states)|
      ensures forall i :: 0 <= i < |states| ==> states[i] == Advance(old(states)[i], rail, dt)
      ensures AllTrack(old(states), rail) && states == AdvanceAll(old(states), rail, dt)
      ensures allDone <==> forall i :: 0 <= i < |states| ==> old(states)[i].done
      ensures fb[..] == Compose(Blank(rail), states)
    {
      ClearFrame();
      allDone := true;
      ghost var pre := states;
      var i := 0;
      while i < |states|
        invariant 0 <= i <= |states| == |pre|
        invariant Valid() && AllTrack(pre, rail)
        invariant states == AdvancedUpTo(pre, rail, dt, i)
        invariant allDone <==> forall j :: 0 <= j < i ==> pre[j].done
        invariant fb[..] == Compose(Blank(rail), states[..i])
      {
        var live := Visit(i, dt, pre);
        if live {
          allDone := false;
        }
        i := i + 1;
      }
      assert states[..|states|] == states;
    }

    /** `fb = [(0,0,0)] * rail_leds`: every pixel back to black. */
    method ClearFrame()
      requires Valid()
      modifies fb
      ensures fb[..] == Blank(rail)
    {
      forall i | 0 <= i < fb.Length {
        fb[i] := BLACK;
      }
      assert fb[..] == Blank(rail);
    }

    /**
     * The loop body for tracker `i`: skip it when done, else step it and
     * blend its trail if it is still live. Trackers before `i` have had
     * their turn, so afterwards the first `i + 1` have, and the frame holds
     * their trails.
     */
    method Visit(i: nat, dt: real, ghost pre: seq<TrackState>) returns (live: bool)
      requires Valid() && i < |states| == |pre| && dt > 0.0 && AllTrack(pre, rail)
      requires states == AdvancedUpTo(pre, rail, dt, i)
      requires fb[..] == Compose(Blank(rail), states[..i])
      modifies this, fb
      ensures Valid() && states == AdvancedUpTo(pre, rail, dt, i + 1)
      ensures states[i] == Advance(pre[i], rail, dt)
      ensures fb[..] == Layer(old(fb[..]), states[i])
      ensures fb[..] == Compose(Blank(rail), states[..i + 1])
      ensures live <==> !pre[i].done
    {
      AdvancedUpToStep(pre, rail, dt, i);
      var st := states[i];
      live := !st.done;
      if live {
        StepKeepsTrack(st, rail, dt);
        st := StepTrack(st, rail, dt);
        states := states[i := st];
        if !st.done {
          BlendTrail(fb, Trunc(st.pos), st.levels, st.ev.trailLen);
        }
      }
      ComposeUpdate(Blank(rail), old(states), i, st);
    }
  }

  // ---------------------------------------------------------------------
  // The run, tick by tick

  predicate AllDone(sts: seq<TrackState>)
  {
    forall i :: 0 <= i < |sts| ==> sts[i].done
  }

  /** Every tracker after one tick. */
  function AdvanceAll(sts: seq<TrackState>, rail: int, dt: real): (r: seq<TrackState>)
    requires AllTrack(sts, rail) && dt > 0.0
    ensures AllTrack(r, rail) && |r| == |sts|
  {
    forall i | 0 <= i < |sts| && !sts[i].done
      ensures TrackValid(Step(sts[i], rail, dt), rail)
    {
      StepKeepsTrack(sts[i], rail, dt);
    }
    AdvancedUpTo(sts, rail, dt, |sts|)
  }

  /** Once every tracker is done a tick changes nothing. */
  lemma AdvanceAllDone(sts: seq<TrackState>, rail: int, dt: real)
    requires AllTrack(sts, rail) && dt > 0.0 && AllDone(sts)
    ensures AdvanceAll(sts, rail, dt) == sts
  {
  }

  /** The trackers after `k` ticks. */
  function StatesAfter(s0: seq<TrackState>, rail: int, dt: real, k: nat): (r: seq<TrackState>)
    requires AllTrack(s0, rail) && dt > 0.0
    ensures AllTrack(r, rail) && |r| == |s0|
  {
    if k == 0 then s0 else AdvanceAll(StatesAfter(s0, rail, dt, k - 1), rail, dt)
  }

  /** Every tracker after the start-up compensation. */
  function DelayedAll(sts: seq<TrackState>, rail: int, delay: real): (r: seq<TrackState>)
    requires AllTrack(sts, rail) && delay >= 0.0
    ensures AllTrack(r, rail) && |r| == |sts|
  {
    forall i | 0 <= i < |sts|
      ensures TrackValid(Delayed(sts[i], delay), rail)
    {
      DelayKeepsTrack(sts[i], rail, delay);
    }
    seq(|sts|, i requires 0 <= i < |sts| => Delayed(sts[i], delay))
  }
}
