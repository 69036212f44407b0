/**
 * The colour stripping of `save_to_file` (ascii.py:227-231): the text is
 * passed through `str.replace(code, '')` once for every registered colour
 * code, in table order, and finally once for the reset sequence.
 */
module Export {
  import opened Wrappers
  import opened Registry
  import opened Layout

  /**
   * Python's `s.replace(pat, '')` for a non-empty pattern: scanning left
   * to right, every occurrence that does not overlap an earlier removed one
   * is deleted, in a single pass.
   */
  function RemoveAll(s: string, pat: string): (r: string)
    requires |pat| > 0
    ensures |r| <= |s|
    decreases |s|
  {
    if |s| < |pat| then s
    else if s[..|pat|] == pat then RemoveAll(s[|pat|..], pat)
    else [s[0]] + RemoveAll(s[1..], pat)
  }

  /** `RemoveAll` with each pattern in turn, the first pattern first. */
  function RemoveEach(s: string, pats: seq<string>): string
    requires forall k :: 0 <= k < |pats| ==> |pats[k]| > 0
  {
    if |pats| == 0 then s
    else RemoveAll(RemoveEach(s, pats[..|pats| - 1]), pats[|pats| - 1])
  }

  /** The codes of the entries that have a truthy one, in table order. */
  function CodesOf(entries: seq<ColorEntry>): (codes: seq<string>)
    ensures |codes| <= |entries|
    ensures forall k :: 0 <= k < |codes| ==> |codes[k]| > 0
  {
    if |entries| == 0 then []
    else
      var last := entries[|entries| - 1];
      CodesOf(entries[..|entries| - 1]) + if Truthy(last.code) then [last.code.value] else []
  }

  /** The cleaned text `save_to_file` hands to `f.write` for a given text. */
  function StripSpec(text: string): string {
    RemoveAll(RemoveEach(text, CodesOf(Colors)), ResetColor)
  }

  /** An escape sequence the generator can emit: a registered colour code or the reset. */
  predicate IsToken(t: string) {
    IsRegisteredCode(t) || t == ResetColor
  }

  /** CodesOf keeps exactly the truthy codes. */
  lemma {:induction false} CodesOfMembers(entries: seq<ColorEntry>)
    ensures forall x :: x in CodesOf(entries) ==>
      exists i :: 0 <= i < |entries| && entries[i].code == Some(x)
    ensures forall i :: 0 <= i < |entries| && Truthy(entries[i].code) ==>
      entries[i].code.value in CodesOf(entries)
  {
    if |entries| > 0 {
      var init := entries[..|entries| - 1];
      CodesOfMembers(init);
      forall x | x in CodesOf(entries)
        ensures exists i :: 0 <= i < |entries| && entries[i].code == Some(x)
      {
        if x in CodesOf(init) {
          var i :| 0 <= i < |init| && init[i].code == Some(x);
          assert entries[i] == init[i];
        } else {
          assert entries[|entries| - 1].code == Some(x);
        }
      }
      forall i | 0 <= i < |entries| && Truthy(entries[i].code)
        ensures entries[i].code.value in CodesOf(entries)
      {
        if i < |entries| - 1 {
          assert init[i] == entries[i];
        }
      }
    }
  }

  /** Every code the exporter removes can also be emitted, and the reset is not among them. */
  lemma StrippedCodes()
    ensures forall x :: x in CodesOf(Colors) ==> IsToken(x)
    ensures ResetColor !in CodesOf(Colors)
  {
    CodesOfMembers(Colors);
    ColorsWellFormed();
  }

  /** `t` and `p` part ways before either one ends: neither is a prefix of the other. */
  predicate Clash(t: string, p: string) {
    var m := if |t| < |p| then |t| else |p|;
    t[..m] != p[..m]
  }

  /**
   * A piece that `RemoveAll(_, p)` handles as a unit: nothing, `p` itself,
   * or an escape sequence that no occurrence of `p` can start inside.
   */
  predicate Separable(t: string, p: string) {
    t == "" || t == p || (t[0] == ESC && EscFree(t[1..]) && Clash(t, p))
  }

  /** What is left of a piece once `p` is removed. */
  function Drop(t: string, p: string): string {
    if t == p then "" else t
  }

  /** Any two emitted escape sequences are separable. */
  lemma TokensSeparable(t: string, p: string)
    requires IsToken(t) && IsToken(p)
    ensures Separable(t, p)
  {
    ColorsWellFormed();
    if t != p {
      assert t[..3] != p[..3] || (|t| == |p| == 5 && t[..5] != p[..5]) by {
        if |t| == |p| {
          assert t == t[..|t|] && p == p[..|p|];
        }
      }
    }
  }

  /** Text without escapes passes through a removal untouched. */
  lemma {:induction false} PlainPrefix(a: string, b: string, p: string)
    requires |p| > 0 && p[0] == ESC && EscFree(a)
    ensures RemoveAll(a + b, p) == a + RemoveAll(b, p)
    decreases |a|
  {
    if |a| == 0 {
      assert a + b == b;
    } else {
      var s := a + b;
      assert s[0] == a[0] && a[0] != ESC;
      assert s[1..] == a[1..] + b;
      PlainPrefix(a[1..], b, p);
      if |s| < |p| {
        assert RemoveAll(b, p) == b;
      } else {
        assert s[..|p|] != p by {
          assert s[..|p|][0] != p[0];
        }
        assert RemoveAll(s, p) == [a[0]] + RemoveAll(a[1..] + b, p);
        assert [a[0]] + (a[1..] + RemoveAll(b, p)) == a + RemoveAll(b, p);
      }
    }
  }

  /** A separable piece at the front is either removed whole or kept whole. */
  lemma TokenPrefix(t: string, b: string, p: string)
    requires |p| > 0 && p[0] == ESC && Separable(t, p)
    ensures RemoveAll(t + b, p) == Drop(t, p) + RemoveAll(b, p)
  {
    var s := t + b;
    if t == "" {
      assert s == b;
    } else if t == p {
      assert s[..|p|] == p && s[|p|..] == b;
    } else {
      var m := if |t| < |p| then |t| else |p|;
      if |s| >= |p| {
        assert s[..|p|][..m] == t[..m];
      }
      assert s[1..] == t[1..] + b;
      PlainPrefix(t[1..], b, p);
      assert [t[0]] + t[1..] == t;
    }
  }

  /** Every emitted escape sequence starts with ESC. */
  lemma TokenStartsWithEsc(t: string)
    requires IsToken(t)
    ensures |t| > 0 && t[0] == ESC
  {
    ColorsWellFormed();
  }

  /** One framed line, `pre + c + post`, in front of the rest of the text. */
  lemma StripPiece(pre: string, c: string, post: string, rest: string, p: string)
    requires |p| > 0 && p[0] == ESC && Separable(pre, p) && Separable(post, p) && EscFree(c)
    ensures RemoveAll(pre + (c + (post + rest)), p) == Drop(pre, p) + (c + (Drop(post, p) + RemoveAll(rest, p)))
  {
    TokenPrefix(pre, c + (post + rest), p);
    PlainPrefix(c, post + rest, p);
    TokenPrefix(post, rest, p);
  }

  /**
   * Removing one escape sequence from framed lines removes it from the
   * frames and leaves the lines and the newlines alone.
   */
  lemma {:induction false} StripFramed(chunks: seq<string>, pre: string, post: string, p: string)
    requires IsToken(p) && (pre == "" || IsToken(pre)) && (post == "" || IsToken(post))
    requires forall k :: 0 <= k < |chunks| ==> EscFree(chunks[k])
    ensures RemoveAll(JoinLines(Wrap(chunks, pre, post)), p) == JoinLines(Wrap(chunks, Drop(pre, p), Drop(post, p)))
    decreases |chunks|
  {
    TokenStartsWithEsc(p);
    if pre != "" { TokensSeparable(pre, p); }
    if post != "" { TokensSeparable(post, p); }
    if |chunks| > 0 {
      var pre', post' := Drop(pre, p), Drop(post, p);
      JoinWrapUnfold(chunks, pre, post);
      JoinWrapUnfold(chunks, pre', post');
      if |chunks| > 1 {
        StripFramed(chunks[1..], pre, post, p);
        PlainPrefix("\n", JoinLines(Wrap(chunks[1..], pre, post)), p);
      }
      StripPiece(pre, chunks[0], post, RestLines(chunks[1..], pre, post), p);
    }
  }

  /** A piece's fate once every pattern in `pats` has been removed. */
  function DropEach(t: string, pats: seq<string>): string {
    if t in pats then "" else t
  }

  /** Removing several escape sequences in turn acts on the frames alone. */
  lemma {:induction false} StripFramedEach(chunks: seq<string>, pre: string, post: string, pats: seq<string>)
    requires forall k :: 0 <= k < |pats| ==> |pats[k]| > 0 && IsToken(pats[k])
    requires (pre == "" || IsToken(pre)) && (post == "" || IsToken(post))
    requires forall k :: 0 <= k < |chunks| ==> EscFree(chunks[k])
    ensures RemoveEach(JoinLines(Wrap(chunks, pre, post)), pats)
      == JoinLines(Wrap(chunks, DropEach(pre, pats), DropEach(post, pats)))
    decreases |pats|
  {
    if |pats| > 0 {
      var init, last := pats[..|pats| - 1], pats[|pats| - 1];
      assert pats == init + [last];
      StripFramedEach(chunks, pre, post, init);
      StripFramed(chunks, DropEach(pre, init), DropEach(post, init), last);
      assert Drop(DropEach(pre, init), last) == DropEach(pre, pats);
      assert Drop(DropEach(post, init), last) == DropEach(post, pats);
    }
  }

  /** Text without escapes survives every removal. */
  lemma {:induction false} RemoveEachPlain(text: string, pats: seq<string>)
    requires forall k :: 0 <= k < |pats| ==> |pats[k]| > 0 && pats[k][0] == ESC
    requires EscFree(text)
    ensures RemoveEach(text, pats) == text
    decreases |pats|
  {
    if |pats| > 0 {
      RemoveEachPlain(text, pats[..|pats| - 1]);
      PlainPrefix(text, "", pats[|pats| - 1]);
      assert text + "" == text;
    }
  }

  /** Exporting text that holds no escape character writes it unchanged. */
  lemma StripPlain(text: string)
    requires EscFree(text)
    ensures StripSpec(text) == text
  {
    var codes := CodesOf(Colors);
    StrippedCodes();
    forall k | 0 <= k < |codes| ensures |codes[k]| > 0 && codes[k][0] == ESC {
      TokenStartsWithEsc(codes[k]);
    }
    RemoveEachPlain(text, codes);
    RemoveEachPlain(text, [ResetColor]);
    assert [ResetColor][..0] == [];
  }

  /**
   * Exporting coloured art gives the plain line layout back: stripping
   * `add_color`'s output, for any registered colour, undoes the colouring.
   */
  lemma StripUndoesColor(s: string, width: int, code: string)
    requires EscFree(s) && width >= 1 && IsRegisteredCode(code)
    ensures StripSpec(JoinLines(Wrap(Chunks(s, width), code, ResetColor))) == JoinLines(Chunks(s, width))
  {
    var chunks, codes := Chunks(s, width), CodesOf(Colors);
    ChunksWithin(s, width);
    StrippedCodes();
    CodesOfMembers(Colors);
    ColorsWellFormed();
    var i :| 0 <= i < |Colors| && Colors[i].code == Some(code);
    assert Truthy(Colors[i].code);
    assert code in codes;
    forall k | 0 <= k < |codes| ensures |codes[k]| > 0 && IsToken(codes[k]) {
      assert codes[k] in codes;
    }
    StripFramedEach(chunks, code, ResetColor, codes);
    StripFramed(chunks, "", ResetColor, ResetColor);
    WrapNothing(chunks);
  }

  /** The stripping loop of `save_to_file`. */
  method StripColors(asciiArt: string) returns (cleanArt: string)
    ensures cleanArt == StripSpec(asciiArt)
    ensures |cleanArt| <= |asciiArt|
    ensures EscFree(asciiArt) ==> cleanArt == asciiArt
  {
    cleanArt := asciiArt;
    for i := 0 to |Colors|
      invariant cleanArt == RemoveEach(asciiArt, CodesOf(Colors[..i]))
      invariant |cleanArt| <= |asciiArt|
    {
      var colorInfo := Colors[i];
      assert Colors[..i + 1][..i] == Colors[..i];
      if Truthy(colorInfo.code) {
        var codes := CodesOf(Colors[..i + 1]);
        assert codes[..|codes| - 1] == CodesOf(Colors[..i]);
        cleanArt := RemoveAll(cleanArt, colorInfo.code.value);
      }
    }
    assert Colors[..|Colors|] == Colors;
    cleanArt := RemoveAll(cleanArt, ResetColor);
    if EscFree(asciiArt) {
      StripPlain(asciiArt);
    }
  }
}
