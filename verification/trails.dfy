/**
 * The trail renderer (GUI1.py:245-250, 311-317, 443-447): level `t` of the
 * trail goes to pixel `head - (trail_len - t)`; pixels left of 0 are skipped,
 * never wrapped onto the far end of the rail. The single-event runners
 * overwrite the framebuffer; the parallel compositor blends additively.
 */
module Trails {
  import opened Colors

  /** Every index the trail writes is below `n`; negative ones are skipped anyway. */
  predicate TrailFits(n: int, head: int, count: int, trailLen: int)
  {
    count == 0 || head - trailLen + count - 1 < n
  }

  /** The trail step that lands on pixel `i`: the `t` with `head - (trailLen - t) == i`. */
  function StepAt(i: int, head: int, trailLen: int): int
  {
    i - head + trailLen
  }

  /** The framebuffer after the overwriting draw loop. */
  function Painted(fb: seq<Rgb>, head: int, levels: seq<Rgb>, trailLen: int): (r: seq<Rgb>)
    ensures |r| == |fb|
  {
    seq(|fb|, i requires 0 <= i < |fb| =>
      var t := StepAt(i, head, trailLen);
      if 0 <= t < |levels| then levels[t] else fb[i])
  }

  /** The framebuffer after the blending draw loop. */
  function Composited(fb: seq<Rgb>, head: int, levels: seq<Rgb>, trailLen: int): (r: seq<Rgb>)
    ensures |r| == |fb|
  {
    seq(|fb|, i requires 0 <= i < |fb| =>
      var t := StepAt(i, head, trailLen);
      if 0 <= t < |levels| then BlendAdditive(fb[i], levels[t]) else fb[i])
  }

  /** `fb[idx] = col` for every level whose index is not negative. */
  method DrawTrail(fb: array<Rgb>, head: int, levels: seq<Rgb>, trailLen: int)
    requires TrailFits(fb.Length, head, |levels|, trailLen)
    modifies fb
    ensures fb[..] == Painted(old(fb[..]), head, levels, trailLen)
  {
    for t := 0 to |levels|
      invariant forall i :: 0 <= i < fb.Length ==>
        fb[i] == (if 0 <= StepAt(i, head, trailLen) < t then levels[StepAt(i, head, trailLen)] else old(fb[i]))
    {
      var idx := head - (trailLen - t);
      if idx < 0 {
        continue;
      }
      fb[idx] := levels[t];
    }
  }

  /** `fb[idx] = blend_additive(fb[idx], col)` for every level whose index is not negative. */
  method BlendTrail(fb: array<Rgb>, head: int, levels: seq<Rgb>, trailLen: int)
    requires TrailFits(fb.Length, head, |levels|, trailLen)
    modifies fb
    ensures fb[..] == Composited(old(fb[..]), head, levels, trailLen)
  {
    for t := 0 to |levels|
      invariant forall i :: 0 <= i < fb.Length ==>
        fb[i] == (if 0 <= StepAt(i, head, trailLen) < t
                  then BlendAdditive(old(fb[i]), levels[StepAt(i, head, trailLen)]) else old(fb[i]))
    {
      var idx := head - (trailLen - t);
      if idx < 0 {
        continue;
      }
      fb[idx] := BlendAdditive(fb[idx], levels[t]);
    }
  }

  /**
   * For a trail of `trailLen + 1` levels the draw touches only pixels
   * `max(0, head - trailLen) ..= head`, puts the brightest level on the head
   * and the others behind it in order; a trail cut off at pixel 0 does not
   * reappear at the far end.
   */
  lemma PaintedFootprint(fb: seq<Rgb>, head: int, levels: seq<Rgb>, trailLen: int)
    requires trailLen >= 0 && |levels| == trailLen + 1
    ensures var r := Painted(fb, head, levels, trailLen);
      && (forall i :: 0 <= i < |fb| && (i < head - trailLen || head < i) ==> r[i] == fb[i])
      && (forall i :: 0 <= i < |fb| && head - trailLen <= i <= head ==> r[i] == levels[i - head + trailLen])
      && (0 <= head < |fb| ==> r[head] == levels[trailLen])
  {
  }

  lemma CompositedFootprint(fb: seq<Rgb>, head: int, levels: seq<Rgb>, trailLen: int)
    requires trailLen >= 0 && |levels| == trailLen + 1
    ensures var r := Composited(fb, head, levels, trailLen);
      && (forall i :: 0 <= i < |fb| && (i < head - trailLen || head < i) ==> r[i] == fb[i])
      && (forall i :: 0 <= i < |fb| && head - trailLen <= i <= head ==>
            r[i] == BlendAdditive(fb[i], levels[i - head + trailLen]))
      && (0 <= head < |fb| ==> r[head] == BlendAdditive(fb[head], levels[trailLen]))
  {
  }

  predicate AllInRange(fb: seq<Rgb>)
  {
    forall i :: 0 <= i < |fb| ==> InRange(fb[i])
  }

  /** Blending keeps every pixel a byte triple, however many trails overlap. */
  lemma CompositedInRange(fb: seq<Rgb>, head: int, levels: seq<Rgb>, trailLen: int)
    requires AllInRange(fb)
    ensures AllInRange(Composited(fb, head, levels, trailLen))
  {
  }

  /** Drawing onto a blank framebuffer and blending onto it give the same picture for byte-range levels. */
  lemma BlendOntoBlankIsPaint(n: nat, head: int, levels: seq<Rgb>, trailLen: int)
    requires forall l :: l in levels ==> InRange(l)
    ensures Composited(Blank(n), head, levels, trailLen) == Painted(Blank(n), head, levels, trailLen)
  {
    var blank := Blank(n);
    var a, b := Composited(blank, head, levels, trailLen), Painted(blank, head, levels, trailLen);
    forall i | 0 <= i < n
      ensures a[i] == b[i]
    {
      var t := StepAt(i, head, trailLen);
      if 0 <= t < |levels| {
        assert levels[t] in levels;
        BlendWithBlack(levels[t]);
      }
    }
  }
}
