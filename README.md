# ASCII art generator — text pipeline model

This project models the text side of the interactive ASCII art generator
(`ASCIIArtGenerator` in `ascii.py`). The imaging library turns the picture
into a grid of luminance samples, 0..255 in row-major order, `imgWidth`
columns wide. The model takes that grid as given and covers everything
the program then does with it:

- **Registry** holds the fixed tables built in `__init__`: six character
  ramps, eight colour entries (the first has no code) and the reset
  sequence `ESC [0m`.
- **Quantizer** maps each sample to a ramp character with
  `floor(p * (N - 1) / 255)` (`grayscale_to_ascii`).
- **Layout** splits the flat glyph string into `imgWidth`-wide lines. It
  joins them with newlines (`generate_ascii_art`), or first wraps every
  line in a colour code and the reset (`add_color`).
- **Export** is the colour stripping of `save_to_file`: `str.replace(code, '')`
  runs for each registered code in table order, then once for the reset.
- **Preferences** covers the width prompt's range check with its default
  of 100, and the row count that `resize_image` requests.
- **Generator** is the part of `generate_ascii_art` that runs after the
  imaging library, plus the round-trip theorem: exporting a coloured
  rendering gives the uncoloured one.

The source computes the quantizer index in floating point:
`int(pixel * (len(chars) - 1) / 255)`. For integer samples in 0..255 this
equals integer floor division. Either the exact quotient is a whole number,
and correctly rounded division returns it exactly. Or it is at least 1/255
away from every whole number, far beyond the rounding error. So the model
uses exact integers.

Two facts about `ascii.py` shape the model:

- `resize_image` truncates the row count with `int()`, so 15.6 rows gives
  15, not 16. `ResizedHeight` truncates the same way.
- `grayscale_to_ascii` never clamps the index and never rejects an empty
  ramp. `CharIndex` proves that no clamping is needed, and only the six
  registered ramps ever reach the quantizer.

## Model

| member | source | states |
|---|---|---|
| `Registry.CharSetsWellFormed` | ascii.py:17-24 | every style ramp is non-empty and contains no escape character |
| `Registry.ColorsWellFormed` | ascii.py:26-37 | every colour code is a five-character `ESC [9d m` sequence with d in 1..7; none equals the reset, which is `ESC [0m` |
| `Preferences.AcceptWidth` | ascii.py:91-103 | an answer is accepted exactly when it is blank or a number in 20..200; blank gives 100, and an accepted number is kept as typed |
| `Preferences.ResizedHeight` | ascii.py:145-149 | the requested row count h is the truncation of newWidth·height/(width·1.65): h·33·width <= 20·newWidth·height < (h+1)·33·width |
| `Preferences.ResizedHeightMonotone` | ascii.py:147-149 | a taller source image never gives fewer rows |
| `Quantizer.CharIndex` | ascii.py:159-160 | for any sample in 0..255 and a ramp of N >= 1 characters, the index lies in [0, N-1], so `chars[char_index]` never goes out of range |
| `Quantizer.CharIndexEndpoints` | ascii.py:158-159 | sample 0 picks the first glyph and sample 255 the last |
| `Quantizer.CharIndexMonotone` | ascii.py:159 | the index never decreases as the sample gets brighter |
| `Quantizer.GlyphsFromRamp` | ascii.py:154-162 | one glyph per sample, each drawn from the ramp, and a brighter sample never gets an earlier ramp position |
| `Quantizer.GrayscaleToAscii` | ascii.py:152-162 | the accumulator loop emits exactly one character per sample, in sample order, and character i is `chars[CharIndex(pixels[i], N)]` |
| `Layout.ChunksConcat` | ascii.py:205-206 | putting the width-w slices back together gives the original glyph string |
| `Layout.ChunksWidths` | ascii.py:205-206 | every line is non-empty and at most w wide, and every line but the last is exactly w wide |
| `Layout.ChunksCount` | ascii.py:205-206 | with n lines, w(n-1) < len <= wn, and there are no lines exactly when the string is empty |
| `Layout.ChunksCountCeiling` | ascii.py:170-171 | the line count is ceil(len / w) = (len + w - 1) / w |
| `Layout.ChunksOfRectangle` | ascii.py:203-206 | a string of w·h glyphs (a w-column image with h rows) splits into exactly h lines |
| `Layout.ChunksWithin` | ascii.py:205-206 | every character of every line comes from the glyph string |
| `Layout.JoinLinesWithin` | ascii.py:208 | joining adds nothing but newlines between the lines |
| `Layout.SplitLines` | ascii.py:203-206 | the line-building loop produces exactly the width-w slices of the glyph string |
| `Layout.AddColor` | ascii.py:164-175 | a falsy code (None or empty) returns the art unchanged, flat and unsplit; otherwise the result is the width-w slices, each wrapped as `code + slice + reset`, joined with newlines |
| `Export.RemoveAll` | ascii.py:230-231 | `str.replace(pat, '')` never lengthens the text |
| `Export.CodesOf` | ascii.py:228-229 | the codes the strip loop removes are non-empty and at most one per table entry |
| `Export.CodesOfMembers` | ascii.py:228-230 | the strip loop removes exactly the truthy codes of the table: each removed code is some entry's code, and each truthy entry's code is removed |
| `Export.StrippedCodes` | ascii.py:227-231 | every code the loop removes is one the generator can emit, and the reset is not among them |
| `Export.TokensSeparable` | ascii.py:26-37 | no emitted escape sequence is a proper prefix of another, so removing one cannot cut into another |
| `Export.PlainPrefix` | ascii.py:230-231 | escape-free text in front passes through a removal untouched |
| `Export.TokenPrefix` | ascii.py:230-231 | an escape sequence at the front is either removed whole (when it is the pattern) or kept whole |
| `Export.StripFramed` | ascii.py:230-231 | removing one escape sequence from colour-framed lines removes it from the frames only, leaving lines and newlines alone |
| `Export.StripFramedEach` | ascii.py:228-231 | the same holds for several escape sequences removed one after another |
| `Export.RemoveEachPlain` | ascii.py:228-230 | text without an escape character survives every removal |
| `Export.StripPlain` | ascii.py:227-231 | stripping leaves any text without an escape character unchanged |
| `Export.StripUndoesColor` | ascii.py:227-231 | for any registered colour and escape-free art, stripping `add_color`'s output gives the plain newline-joined width-w layout |
| `Export.StripColors` | ascii.py:227-231 | the strip loop computes the table-order removal followed by the reset removal; it never lengthens the text and leaves escape-free text unchanged |
| `Generator.GenerateAsciiArt` | ascii.py:199-214 | the result is the quantized glyphs split into `imgWidth`-wide lines, framed in the colour code and the reset when the colour is truthy, and plain otherwise |
| `Generator.GlyphsEscFree` | ascii.py:152-162 | glyphs drawn from a registered ramp contain no escape character |
| `Generator.PlainRenderEscFree` | ascii.py:203-208 | the uncoloured rendering contains no escape character |
| `Generator.ExportIgnoresColor` | ascii.py:203-212 | for every menu colour, the cleaned text `save_to_file` hands to `f.write` equals the uncoloured rendering; with "No Color" it equals the rendering itself |

## Left out

- The file dialog, the `input()` prompt loops, the style and colour menu lookups, `print`, `display_summary` and `main`. These are user-interface glue.
- Opening the image, the brightness and contrast enhancers, the conversion to luminance and the LANCZOS resampling. These are calls into the imaging library over floating-point pixels. The luminance grid is a parameter of `Generator.GenerateAsciiArt`.
- `Preferences.ResizedHeight` is an integer approximation. The source computes `int(new_width * (height / width / 1.65))` in floating point, and the float 1.65 is not exactly 33/20. So the two can differ by one row when the exact value sits on an integer. The model also does not capture that a row count of 0, possible for very wide images, makes the imaging library's resize fail.
- Parsing the width answer with `int()`, and the brightness and contrast answers with `float()`. `Preferences.AcceptWidth` receives the answer already parsed (`Blank` or a number).
- Writing the file, the timestamped default filename from the clock, and turning exceptions into error strings. The file is opened in text mode, which turns each `'\n'` into the platform's line separator (`'\r\n'` on Windows). The model stops at the cleaned string handed to `f.write`.
- `Quantizer.GrayscaleToAscii` requires a non-empty ramp. With an empty ramp and a non-empty image the source raises `IndexError`. Every caller passes one of the six registered ramps.
- `Layout.SplitLines` and `Layout.AddColor` require a width of at least 1 (`AddColor` only when it colours). With a width of 0, `range` raises `ValueError`. The width the program passes is the resized image's width, 20..200.
- `Export.RemoveAll` is only defined for non-empty patterns. Python's `replace` with an empty pattern inserts at every position, but every registered code and the reset are non-empty, and the loop skips the `None` code.
