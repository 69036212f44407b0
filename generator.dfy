/**
 * The text half of `generate_ascii_art` (ascii.py:199-214): once the
 * imaging library has produced a luminance grid of `imgWidth` columns, the
 * samples are quantized, reflowed into lines and, when a colour was
 * chosen, coloured line by line.
 */
module Generator {
  import opened Wrappers
  import opened Registry
  import opened Quantizer
  import opened Layout
  import opened Export

  /**
   * The rendered text for a glyph string: the plain `'\n'`-joined lines, or
   * the lines each framed by the colour code and the reset.
   */
  function RenderText(asciiArt: string, imgWidth: int, color: Option<string>): string
    requires imgWidth >= 1
  {
    if Truthy(color) then JoinLines(Wrap(Chunks(asciiArt, imgWidth), color.value, ResetColor))
    else JoinLines(Chunks(asciiArt, imgWidth))
  }

  /** Lines 199-214: both layouts are built from the flat glyph string. */
  method GenerateAsciiArt(pixels: seq<int>, chars: string, imgWidth: int, color: Option<string>)
    returns (asciiResult: string)
    requires IsLuminance(pixels) && |chars| >= 1 && imgWidth >= 1
    ensures asciiResult == RenderText(Glyphs(pixels, chars), imgWidth, color)
  {
    var asciiArt := GrayscaleToAscii(pixels, chars);
    var asciiLines := SplitLines(asciiArt, imgWidth);
    asciiResult := JoinLines(asciiLines);
    if Truthy(color) {
      asciiResult := AddColor(asciiArt, imgWidth, color);
    }
  }

  /** Glyphs drawn from a registered ramp hold no escape character. */
  lemma GlyphsEscFree(pixels: seq<int>, chars: string)
    requires IsLuminance(pixels) && IsRamp(chars)
    ensures |chars| >= 1 && EscFree(Glyphs(pixels, chars))
  {
    CharSetsWellFormed();
    GlyphsFromRamp(pixels, chars);
  }

  /** The uncoloured rendering of escape-free glyphs is escape-free. */
  lemma PlainRenderEscFree(asciiArt: string, imgWidth: int)
    requires imgWidth >= 1 && EscFree(asciiArt)
    ensures EscFree(RenderText(asciiArt, imgWidth, None))
  {
    var lines := Chunks(asciiArt, imgWidth);
    ChunksWithin(asciiArt, imgWidth);
    if ESC in JoinLines(lines) {
      JoinLinesWithin(lines, ESC);
    }
  }

  /**
   * The export round trip: whatever colour was chosen, the file written
   * for an image holds the uncoloured rendering, and for "No Color" the
   * file holds exactly what was rendered.
   */
  lemma ExportIgnoresColor(pixels: seq<int>, chars: string, imgWidth: int, color: Option<string>)
    requires IsLuminance(pixels) && IsRamp(chars) && imgWidth >= 1 && IsColorChoice(color)
    ensures |chars| >= 1
    ensures StripSpec(RenderText(Glyphs(pixels, chars), imgWidth, color))
      == RenderText(Glyphs(pixels, chars), imgWidth, None)
    ensures !Truthy(color) ==>
      StripSpec(RenderText(Glyphs(pixels, chars), imgWidth, color)) == RenderText(Glyphs(pixels, chars), imgWidth, color)
  {
    GlyphsEscFree(pixels, chars);
    var glyphs := Glyphs(pixels, chars);
    PlainRenderEscFree(glyphs, imgWidth);
    StripPlain(RenderText(glyphs, imgWidth, None));
    if Truthy(color) {
      StripUndoesColor(glyphs, imgWidth, color.value);
    }
  }
}
