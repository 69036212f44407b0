/**
 * Reflowing the flat glyph string into lines: the chunk-and-join loop of
 * `generate_ascii_art` (ascii.py:203-208) and `add_color`
 * (ascii.py:164-175), which does the same split but wraps every chunk in a
 * colour code and the reset sequence.
 */
module Layout {
  import opened Wrappers
  import opened Registry
  import Arith

  /**
   * The slices `s[i:i+w]` for `i` in `range(0, len(s), w)`: consecutive
   * pieces of `w` characters, the last one possibly shorter.
   */
  function Chunks(s: string, w: int): seq<string>
    requires w >= 1
    decreases |s|
  {
    if |s| == 0 then []
    else if |s| <= w then [s]
    else [s[..w]] + Chunks(s[w..], w)
  }

  /** Python's `'\n'.join(lines)`. */
  function JoinLines(lines: seq<string>): string {
    if |lines| == 0 then ""
    else if |lines| == 1 then lines[0]
    else lines[0] + "\n" + JoinLines(lines[1..])
  }

  /** All the pieces one after another, with nothing between them. */
  function Concat(pieces: seq<string>): string {
    if |pieces| == 0 then "" else pieces[0] + Concat(pieces[1..])
  }

  /** Every line framed as `pre + line + post`. */
  function Wrap(lines: seq<string>, pre: string, post: string): seq<string> {
    seq(|lines|, k requires 0 <= k < |lines| => pre + lines[k] + post)
  }

  /** Putting the chunks back together gives the original string. */
  lemma {:induction false} ChunksConcat(s: string, w: int)
    requires w >= 1
    ensures Concat(Chunks(s, w)) == s
    decreases |s|
  {
    if |s| > w {
      ChunksConcat(s[w..], w);
      assert s[..w] + s[w..] == s;
    } else if |s| > 0 {
      assert [s][1..] == [];
    }
  }

  /** Every chunk is non-empty; all but the last have exactly `w` characters. */
  lemma {:induction false} ChunksWidths(s: string, w: int)
    requires w >= 1
    ensures forall k :: 0 <= k < |Chunks(s, w)| ==> 1 <= |Chunks(s, w)[k]| <= w
    ensures forall k :: 0 <= k < |Chunks(s, w)| - 1 ==> |Chunks(s, w)[k]| == w
    decreases |s|
  {
    if |s| > w {
      ChunksWidths(s[w..], w);
      var r := Chunks(s, w);
      assert r[1..] == Chunks(s[w..], w);
      forall k | 1 <= k < |r| ensures 1 <= |r[k]| <= w && (k < |r| - 1 ==> |r[k]| == w) {
        assert r[k] == r[1..][k - 1];
      }
    }
  }

  /** There are ceil(|s| / w) chunks: w(n - 1) < |s| <= w n. */
  lemma {:induction false} ChunksCount(s: string, w: int)
    requires w >= 1
    ensures var n := |Chunks(s, w)|; (n - 1) * w < |s| <= n * w
    ensures |s| == 0 <==> |Chunks(s, w)| == 0
    decreases |s|
  {
    if |s| > w {
      ChunksCount(s[w..], w);
    }
  }

  /** A string of exactly `h` full lines of width `w` splits into `h` lines. */
  lemma ChunksOfRectangle(s: string, w: int, h: nat)
    requires w >= 1 && |s| == w * h
    ensures |Chunks(s, w)| == h
  {
    ChunksCount(s, w);
  }

  /** The line count is the ceiling of the length over the width. */
  lemma ChunksCountCeiling(s: string, w: int)
    requires w >= 1
    ensures |Chunks(s, w)| == (|s| + w - 1) / w
  {
    var n := |Chunks(s, w)|;
    ChunksCount(s, w);
    assert (n - 1) * w == n * w - w;
    Arith.DivUnique(|s| + w - 1, w, n);
  }

  /** What follows the first framed line: nothing, or a newline and the remaining lines. */
  function RestLines(rest: seq<string>, pre: string, post: string): string {
    if |rest| == 0 then "" else "\n" + JoinLines(Wrap(rest, pre, post))
  }

  /** Joining framed lines starts with the first line's frame and text. */
  lemma JoinWrapUnfold(lines: seq<string>, pre: string, post: string)
    requires |lines| > 0
    ensures JoinLines(Wrap(lines, pre, post)) == pre + (lines[0] + (post + RestLines(lines[1..], pre, post)))
  {
    var w := Wrap(lines, pre, post);
    assert w[0] == pre + lines[0] + post;
    if |lines| > 1 {
      assert w[1..] == Wrap(lines[1..], pre, post);
    }
  }

  /** Every character of every chunk comes from the string that was split. */
  lemma {:induction false} ChunksWithin(s: string, w: int)
    requires w >= 1
    ensures forall k, x :: 0 <= k < |Chunks(s, w)| && x in Chunks(s, w)[k] ==> x in s
    decreases |s|
  {
    if |s| > w {
      ChunksWithin(s[w..], w);
      var r := Chunks(s, w);
      forall k, x | 0 <= k < |r| && x in r[k] ensures x in s {
        if k == 0 {
          assert x in s[..w];
        } else {
          assert r[k] == Chunks(s[w..], w)[k - 1];
          assert x in s[w..];
        }
      }
    }
  }

  /** Joining lines adds only newlines between them. */
  lemma {:induction false} JoinLinesWithin(lines: seq<string>, x: char)
    requires x in JoinLines(lines)
    ensures x == '\n' || exists k :: 0 <= k < |lines| && x in lines[k]
    decreases |lines|
  {
    if |lines| > 1 {
      var head := lines[0] + "\n";
      if x in head {
        assert x in lines[0] || x == '\n';
      } else {
        assert x in JoinLines(lines[1..]);
        JoinLinesWithin(lines[1..], x);
        var k :| 0 <= k < |lines[1..]| && x in lines[1..][k];
        assert x in lines[k + 1];
      }
    }
  }

  /** Wrapping in nothing changes no line. */
  lemma WrapNothing(lines: seq<string>)
    ensures Wrap(lines, "", "") == lines
  {
    assert forall k :: 0 <= k < |lines| ==> "" + lines[k] + "" == lines[k];
  }

  /** One turn of `range(0, len(s), w)`: the slice at `i` comes off the front of what is left. */
  lemma ChunksStep(s: string, i: nat, w: int)
    requires w >= 1 && i < |s|
    ensures i + w < |s| ==> Chunks(s[i..], w) == [s[i..i + w]] + Chunks(s[i + w..], w)
    ensures i + w >= |s| ==> Chunks(s[i..], w) == [s[i..|s|]]
  {
    assert s[i..] == s[i..|s|];
    if i + w < |s| {
      assert s[i..][..w] == s[i..i + w];
      assert s[i..][w..] == s[i + w..];
    }
  }

  /** The line-building loop of `generate_ascii_art`, before the join. */
  method SplitLines(asciiArt: string, imgWidth: int) returns (asciiLines: seq<string>)
    requires imgWidth >= 1
    ensures asciiLines == Chunks(asciiArt, imgWidth)
  {
    asciiLines := [];
    var i := 0;
    while i < |asciiArt|
      invariant 0 <= i
      invariant i < |asciiArt| ==> asciiLines + Chunks(asciiArt[i..], imgWidth) == Chunks(asciiArt, imgWidth)
      invariant i >= |asciiArt| ==> asciiLines == Chunks(asciiArt, imgWidth)
      decreases |asciiArt| - i
    {
      var end := if i + imgWidth <= |asciiArt| then i + imgWidth else |asciiArt|;
      ChunksStep(asciiArt, i, imgWidth);
      asciiLines := asciiLines + [asciiArt[i..end]];
      i := i + imgWidth;
    }
  }

  /**
   * `add_color`: with a falsy code the art comes back as it was, flat;
   * otherwise every chunk becomes `code + chunk + reset` and the lines are
   * joined with newlines.
   */
  method AddColor(asciiArt: string, width: int, colorCode: Option<string>) returns (r: string)
    requires Truthy(colorCode) ==> width >= 1
    ensures !Truthy(colorCode) ==> r == asciiArt
    ensures Truthy(colorCode) ==> r == JoinLines(Wrap(Chunks(asciiArt, width), colorCode.value, ResetColor))
  {
    if !Truthy(colorCode) {
      return asciiArt;
    }
    var code := colorCode.value;
    var lines: seq<string> := [];
    var i := 0;
    while i < |asciiArt|
      invariant 0 <= i
      invariant i < |asciiArt| ==>
        Wrap(Chunks(asciiArt, width), code, ResetColor) == lines + Wrap(Chunks(asciiArt[i..], width), code, ResetColor)
      invariant i >= |asciiArt| ==> lines == Wrap(Chunks(asciiArt, width), code, ResetColor)
      decreases |asciiArt| - i
    {
      var end := if i + width <= |asciiArt| then i + width else |asciiArt|;
      var line := asciiArt[i..end];
      var coloredLine := code + line + ResetColor;
      ChunksStep(asciiArt, i, width);
      lines := lines + [coloredLine];
      i := i + width;
    }
    r := JoinLines(lines);
  }
}
