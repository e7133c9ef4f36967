/**
 * The pixel sink as the renderer sees it (GUI1.py:64-80, 191-194): a strip
 * of `numPixels()` packed colour words, written pixel by pixel and flushed
 * with `show()`. The hardware driver behind it is not modelled; instead the
 * strip keeps the list of frames every `show()` has sent.
 */
module Sink {
  import opened Colors

  /** The strip's channel order, `COLOR_ORDER`. */
  const COLOR_ORDER := "GRB"

  function Zeros(n: nat): seq<int> { seq(n, _ => 0) }

  /** A framebuffer packed pixel by pixel for the strip. */
  function PackFrame(fb: seq<Rgb>): (words: seq<int>)
    ensures |words| == |fb|
    ensures forall i :: 0 <= i < |fb| ==> IsWord24(words[i])
  {
    seq(|fb|, i requires 0 <= i < |fb| => PackTuple(fb[i], COLOR_ORDER))
  }

  /** The all-off framebuffer packs to the all-zero frame. */
  lemma PackBlank(n: nat)
    ensures PackFrame(Blank(n)) == Zeros(n)
  {
    forall i | 0 <= i < n
      ensures PackFrame(Blank(n))[i] == 0
    {
      PackBlackIsZero(COLOR_ORDER);
    }
  }

  class Strip {
    const count: nat
    const pixels: array<int>
    /** Every frame flushed so far, oldest first. */
    var shown: seq<seq<int>>

    ghost predicate Valid()
      reads this
    {
      pixels.Length == count
    }

    constructor (n: nat)
      ensures Valid() && count == n && fresh(pixels)
      ensures pixels[..] == Zeros(n) && shown == []
    {
      count := n;
      pixels := new int[n](_ => 0);
      shown := [];
    }

    /** `setPixelColor(i, color)`. */
    method SetPixelColor(i: int, color: int)
      requires Valid() && 0 <= i < count
      modifies pixels
      ensures pixels[..] == old(pixels[..])[i := color]
    {
      pixels[i] := color;
    }

    /** `show()`: flush the current pixels as one frame. */
    method Show()
      requires Valid()
      modifies this
      ensures Valid() && shown == old(shown) + [pixels[..]]
    {
      shown := shown + [pixels[..]];
    }

    /** `BaseStrip.clear`: every pixel to 0, then `show()`. */
    method Clear()
      requires Valid()
      modifies this, pixels
      ensures Valid() && pixels[..] == Zeros(count)
      ensures shown == old(shown) + [Zeros(count)]
    {
      for i := 0 to count
        invariant shown == old(shown)
        invariant forall j :: 0 <= j < i ==> pixels[j] == 0
      {
        SetPixelColor(i, 0);
      }
      assert pixels[..] == Zeros(count);
      Show();
    }
  }
}
