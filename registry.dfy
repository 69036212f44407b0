/**
 * The fixed tables the generator builds once at start-up (ascii.py:17-37):
 * six character ramps, eight colour entries (one of them without a code)
 * and the terminal reset sequence. None of them is ever mutated, so they
 * are constants here.
 */
module Registry {
  import opened Wrappers

  /** The escape character that opens every ANSI colour sequence. */
  const ESC: char := '\U{1B}'

  /** A named character ramp, darkest glyph first. */
  datatype CharSet = CharSet(name: string, chars: string)

  /** A named colour; `code` is `None` for the "No Color" entry. */
  datatype ColorEntry = ColorEntry(key: string, name: string, code: Option<string>)

  /** The style menu, keyed by the digit the user types. */
  const CharSets: map<string, CharSet> := map[
    "1" := CharSet("Detailed", "@%#*+=-:. "),
    "2" := CharSet("Blocks", "█▉▊▋▌▍▎▏ "),
    "3" := CharSet("Classic", "@#S%?*+;:,."),
    "4" := CharSet("Minimal", "██▓▒░  "),
    "5" := CharSet("Dots", "●◐◑◒◓◔◕○ "),
    "6" := CharSet("Simple", "█▓▒░ ")
  ]

  /** The colour menu in its declaration order (the order the exporter strips in). */
  const Colors: seq<ColorEntry> := [
    ColorEntry("1", "No Color", None),
    ColorEntry("2", "Red", Some("\U{1B}[91m")),
    ColorEntry("3", "Green", Some("\U{1B}[92m")),
    ColorEntry("4", "Yellow", Some("\U{1B}[93m")),
    ColorEntry("5", "Blue", Some("\U{1B}[94m")),
    ColorEntry("6", "Purple", Some("\U{1B}[95m")),
    ColorEntry("7", "Cyan", Some("\U{1B}[96m")),
    ColorEntry("8", "White", Some("\U{1B}[97m"))
  ]

  const ResetColor: string := "\U{1B}[0m"

  /** Python truthiness of an optional colour code: neither `None` nor `''`. */
  predicate Truthy(code: Option<string>) {
    code.Some? && code.value != ""
  }

  predicate EscFree(s: string) {
    ESC !in s
  }

  /** A colour code the registry offers. */
  predicate IsRegisteredCode(c: string) {
    exists i :: 0 <= i < |Colors| && Colors[i].code == Some(c)
  }

  /** Every ramp is non-empty and free of escape characters. */
  lemma CharSetsWellFormed()
    ensures forall k :: k in CharSets ==> |CharSets[k].chars| >= 1 && EscFree(CharSets[k].chars)
  {
  }

  /** The shape of a bright-colour selection sequence, ESC [ 9 d m with d in 1..7. */
  predicate IsColorCode(c: string) {
    |c| == 5 && c[0] == ESC && c[1] == '[' && c[2] == '9' && '1' <= c[3] <= '7' && c[4] == 'm'
  }

  /** Every colour code present is a bright-colour sequence; the reset is not one. */
  lemma ColorsWellFormed()
    ensures forall i :: 0 <= i < |Colors| && Colors[i].code.Some? ==> IsColorCode(Colors[i].code.value)
    ensures forall i :: 0 <= i < |Colors| ==> Colors[i].code != Some(ResetColor)
    ensures ResetColor == [ESC, '[', '0', 'm']
  {
  }

  /** One of the six character ramps of the style menu. */
  predicate IsRamp(chars: string) {
    exists k :: k in CharSets && CharSets[k].chars == chars
  }

  /** What the colour menu can hand on: the code of one of its entries, `None` included. */
  predicate IsColorChoice(code: Option<string>) {
    exists i :: 0 <= i < |Colors| && Colors[i].code == code
  }
}
