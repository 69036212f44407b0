/**
 * `grayscale_to_ascii` (ascii.py:152-162): each luminance sample becomes
 * one glyph of the ramp by linear bucketing.
 *
 * The source computes `int(pixel * (len(chars) - 1) / 255)` in floating
 * point. For a sample in 0..255 and a ramp of N characters the exact
 * quotient is either an integer, which the division yields exactly, or at
 * least 1/255 away from one, far beyond the rounding error; so truncating
 * the float is floor division on integers, which is what is modelled.
 */
module Quantizer {

  /** The luminance samples of a single-channel ('L' mode) image. */
  predicate IsLuminance(pixels: seq<int>) {
    forall i :: 0 <= i < |pixels| ==> 0 <= pixels[i] <= 255
  }

  /** The ramp position chosen for one sample; always a valid index. */
  function CharIndex(pixel: int, n: int): (k: int)
    requires 0 <= pixel <= 255 && n >= 1
    ensures 0 <= k <= n - 1
  {
    assert pixel * (n - 1) <= 255 * (n - 1) by {
      assert 255 * (n - 1) - pixel * (n - 1) == (255 - pixel) * (n - 1);
    }
    pixel * (n - 1) / 255
  }

  /** Black picks the first glyph and white the last. */
  lemma CharIndexEndpoints(n: int)
    requires n >= 1
    ensures CharIndex(0, n) == 0
    ensures CharIndex(255, n) == n - 1
  {
  }

  /** A brighter sample never picks an earlier glyph. */
  lemma CharIndexMonotone(p: int, q: int, n: int)
    requires 0 <= p <= q <= 255 && n >= 1
    ensures CharIndex(p, n) <= CharIndex(q, n)
  {
    assert p * (n - 1) <= q * (n - 1) by {
      assert q * (n - 1) - p * (n - 1) == (q - p) * (n - 1);
    }
  }

  /** The glyph string of a whole image, one glyph per sample, in sample order. */
  function Glyphs(pixels: seq<int>, chars: string): string
    requires IsLuminance(pixels) && |chars| >= 1
  {
    seq(|pixels|, i requires 0 <= i < |pixels| => chars[CharIndex(pixels[i], |chars|)])
  }

  /** Every glyph is drawn from the ramp, and brighter samples get later glyphs. */
  lemma GlyphsFromRamp(pixels: seq<int>, chars: string)
    requires IsLuminance(pixels) && |chars| >= 1
    ensures |Glyphs(pixels, chars)| == |pixels|
    ensures forall i :: 0 <= i < |pixels| ==> Glyphs(pixels, chars)[i] in chars
    ensures forall i, j :: 0 <= i < |pixels| && 0 <= j < |pixels| && pixels[i] <= pixels[j] ==>
      CharIndex(pixels[i], |chars|) <= CharIndex(pixels[j], |chars|)
  {
    forall i, j | 0 <= i < |pixels| && 0 <= j < |pixels| && pixels[i] <= pixels[j]
      ensures CharIndex(pixels[i], |chars|) <= CharIndex(pixels[j], |chars|)
    {
      CharIndexMonotone(pixels[i], pixels[j], |chars|);
    }
  }

  /** The accumulator loop of `grayscale_to_ascii`. */
  method GrayscaleToAscii(pixels: seq<int>, chars: string) returns (asciiStr: string)
    requires IsLuminance(pixels) && |chars| >= 1
    ensures |asciiStr| == |pixels|
    ensures forall i :: 0 <= i < |pixels| ==> asciiStr[i] == chars[CharIndex(pixels[i], |chars|)]
    ensures asciiStr == Glyphs(pixels, chars)
  {
    asciiStr := "";
    for i := 0 to |pixels|
      invariant |asciiStr| == i
      invariant forall k :: 0 <= k < i ==> asciiStr[k] == chars[CharIndex(pixels[k], |chars|)]
    {
      var charIndex := CharIndex(pixels[i], |chars|);
      asciiStr := asciiStr + [chars[charIndex]];
    }
  }
}
