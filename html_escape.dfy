/**
 * `escapeHtml`, as both the TOC plugin and the Markdown renderer write it: four global
 * replacements, `&` first, then `<`, `>` and `"`.
 */
module HtmlEscape {

  /** `s.replace(/pat/g, rep)` for a literal pattern: occurrences are found left to right
    * and replaced without overlapping. */
  function ReplaceAll(s: string, pat: string, rep: string): string
    requires |pat| > 0
    decreases |s|
  {
    if s == [] then []
    else if |pat| <= |s| && s[..|pat|] == pat then rep + ReplaceAll(s[|pat|..], pat, rep)
    else [s[0]] + ReplaceAll(s[1..], pat, rep)
  }

  /** `escapeHtml`. */
  function EscapeHtml(s: string): string {
    ReplaceAll(ReplaceAll(ReplaceAll(ReplaceAll(s, "&", "&amp;"), "<", "&lt;"), ">", "&gt;"), "\"", "&quot;")
  }

  /** Decoding the four entities one after the other, `&amp;` last. */
  function UnescapeHtml(s: string): string {
    ReplaceAll(ReplaceAll(ReplaceAll(ReplaceAll(s, "&lt;", "<"), "&gt;", ">"), "&quot;", "\""), "&amp;", "&")
  }

  /** The entity each character escapes to. */
  function Entity(c: char): (e: string)
    ensures e == [c] || (|e| >= 4 && e[0] == '&' && e[|e| - 1] == ';')
  {
    if c == '&' then "&amp;"
    else if c == '<' then "&lt;"
    else if c == '>' then "&gt;"
    else if c == '"' then "&quot;"
    else [c]
  }

  /** Escaping character by character: the reference `escapeHtml` is measured against. */
  function EscapeChars(s: string): string {
    if s == [] then [] else Entity(s[0]) + EscapeChars(s[1..])
  }

  /** Pass `t` of escaping followed by decoding: 0-3 escape `&`, `<`, `>`, `"`, and 4-7
    * decode `&lt;`, `&gt;`, `&quot;`, `&amp;`. */
  function Pass(t: nat): (p: (string, string))
    requires t < 8
    ensures |p.0| > 0
  {
    if t == 0 then ("&", "&amp;")
    else if t == 1 then ("<", "&lt;")
    else if t == 2 then (">", "&gt;")
    else if t == 3 then ("\"", "&quot;")
    else if t == 4 then ("&lt;", "<")
    else if t == 5 then ("&gt;", ">")
    else if t == 6 then ("&quot;", "\"")
    else ("&amp;", "&")
  }

  /** How a character reads after the first `t` passes: it is an entity from the pass
    * that escapes it until the pass that decodes it. */
  function Stage(t: nat, c: char): string
    requires t <= 8
  {
    var escapedAt := if c == '&' then 1 else if c == '<' then 2 else if c == '>' then 3 else if c == '"' then 4 else 9;
    var decodedAt := if c == '&' then 8 else if c == '<' then 5 else if c == '>' then 6 else 7;
    if escapedAt <= t < decodedAt then Entity(c) else [c]
  }

  function StageChars(t: nat, s: string): string
    requires t <= 8
  {
    if s == [] then [] else Stage(t, s[0]) + StageChars(t, s[1..])
  }

  lemma ReplaceHit(pat: string, x: string, rep: string)
    requires |pat| > 0
    ensures ReplaceAll(pat + x, pat, rep) == rep + ReplaceAll(x, pat, rep)
  {
    assert (pat + x)[..|pat|] == pat;
    assert (pat + x)[|pat|..] == x;
  }

  /** Text without the pattern's first character passes through unchanged. */
  lemma {:induction false} ReplaceSkip(w: string, x: string, pat: string, rep: string)
    requires |pat| > 0 && pat[0] !in w
    ensures ReplaceAll(w + x, pat, rep) == w + ReplaceAll(x, pat, rep)
    decreases |w|
  {
    if w != [] {
      var s := w + x;
      assert s[0] == w[0] && w[0] != pat[0];
      assert !(|pat| <= |s| && s[..|pat|] == pat) by {
        if |pat| <= |s| {
          assert s[..|pat|][0] == s[0];
        }
      }
      assert s[1..] == w[1..] + x;
      assert pat[0] !in w[1..] by { assert forall i :: 0 <= i < |w[1..]| ==> w[1..][i] == w[i + 1]; }
      ReplaceSkip(w[1..], x, pat, rep);
      assert w == [w[0]] + w[1..];
    } else {
      assert w + x == x;
    }
  }

  /** An entity that differs from the pattern in its second character passes through. */
  lemma ReplaceMismatch(w: string, x: string, pat: string, rep: string)
    requires |pat| >= 2 && |w| >= 2 && w[1] != pat[1] && pat[0] !in w[1..]
    ensures ReplaceAll(w + x, pat, rep) == w + ReplaceAll(x, pat, rep)
  {
    var s := w + x;
    assert s[1] == w[1];
    assert s[1..] == w[1..] + x;
    ReplaceSkip(w[1..], x, pat, rep);
    assert w == [w[0]] + w[1..];
  }

  /** Against the pattern of pass `t`, a character's stage-`t` form is the pattern itself
    * (and the pass turns it into its stage-`t+1` form), or it does not hold the pattern's
    * first character, or it differs from the pattern in its second character and holds
    * the first only at its start; in the last two cases the pass leaves it alone. */
  lemma StageShape(t: nat, c: char)
    requires t < 8
    ensures Stage(t, c) == Pass(t).0 ==> Stage(t + 1, c) == Pass(t).1
    ensures Stage(t, c) != Pass(t).0 ==> Stage(t + 1, c) == Stage(t, c)
    ensures Stage(t, c) == Pass(t).0 || Pass(t).0[0] !in Stage(t, c)
      || (|Pass(t).0| >= 2 && |Stage(t, c)| >= 2 && Stage(t, c)[1] != Pass(t).0[1] && Pass(t).0[0] !in Stage(t, c)[1..])
  {
    if t < 4 {
      EscapeStageShape(t, c);
    } else {
      DecodeStageShape(t, c);
    }
  }

  lemma EscapeStageShape(t: nat, c: char)
    requires t < 4
    ensures Stage(t, c) == Pass(t).0 ==> Stage(t + 1, c) == Pass(t).1
    ensures Stage(t, c) != Pass(t).0 ==> Stage(t + 1, c) == Stage(t, c)
    ensures Stage(t, c) == Pass(t).0 || Pass(t).0[0] !in Stage(t, c)
  {
    if t == 0 {
    } else if t == 1 {
    } else if t == 2 {
    } else {
    }
  }

  lemma DecodeStageShape(t: nat, c: char)
    requires 4 <= t < 8
    ensures Stage(t, c) == Pass(t).0 ==> Stage(t + 1, c) == Pass(t).1
    ensures Stage(t, c) != Pass(t).0 ==> Stage(t + 1, c) == Stage(t, c)
    ensures Stage(t, c) == Pass(t).0 || Pass(t).0[0] !in Stage(t, c)
      || (|Pass(t).0| >= 2 && |Stage(t, c)| >= 2 && Stage(t, c)[1] != Pass(t).0[1] && Pass(t).0[0] !in Stage(t, c)[1..])
  {
    if t == 4 {
    } else if t == 5 {
    } else if t == 6 {
    } else {
    }
  }

  /** One pass turns each character from its stage-`t` form into its stage-`t+1` form. */
  lemma StageStep(t: nat, c: char, x: string)
    requires t < 8
    ensures ReplaceAll(Stage(t, c) + x, Pass(t).0, Pass(t).1) == Stage(t + 1, c) + ReplaceAll(x, Pass(t).0, Pass(t).1)
  {
    var pat := Pass(t).0;
    var rep := Pass(t).1;
    var w := Stage(t, c);
    StageShape(t, c);
    if w == pat {
      ReplaceHit(pat, x, rep);
    } else if pat[0] !in w {
      ReplaceSkip(w, x, pat, rep);
    } else {
      ReplaceMismatch(w, x, pat, rep);
    }
  }

  lemma {:induction false} StageAllStep(t: nat, s: string)
    requires t < 8
    ensures ReplaceAll(StageChars(t, s), Pass(t).0, Pass(t).1) == StageChars(t + 1, s)
    decreases |s|
  {
    if s != [] {
      StageStep(t, s[0], StageChars(t, s[1..]));
      StageAllStep(t, s[1..]);
    }
  }

  lemma {:induction false} StageEnds(s: string)
    ensures StageChars(0, s) == s && StageChars(8, s) == s && StageChars(4, s) == EscapeChars(s)
    decreases |s|
  {
    if s != [] {
      StageEnds(s[1..]);
      assert s == [s[0]] + s[1..];
    }
  }

  /** `escapeHtml` replaces each character by its entity, independently of its
    * neighbours: no replacement pass touches the entities an earlier pass wrote. */
  lemma EscapeHtmlPerChar(s: string)
    ensures EscapeHtml(s) == EscapeChars(s)
  {
    StageEnds(s);
    StageAllStep(0, s);
    StageAllStep(1, s);
    StageAllStep(2, s);
    StageAllStep(3, s);
  }

  /** Decoding the four entities, `&amp;` last, gives back the original text. */
  lemma UnescapeEscape(s: string)
    ensures UnescapeHtml(EscapeHtml(s)) == s
  {
    EscapeHtmlPerChar(s);
    StageEnds(s);
    StageAllStep(4, s);
    StageAllStep(5, s);
    StageAllStep(6, s);
    StageAllStep(7, s);
  }

  lemma {:induction false} EscapeCharsSafe(s: string)
    ensures '<' !in EscapeChars(s) && '>' !in EscapeChars(s) && '"' !in EscapeChars(s)
    decreases |s|
  {
    if s != [] {
      EscapeCharsSafe(s[1..]);
    }
  }

  /** Escaped text holds no `<`, `>` or `"`, so it can neither open a tag nor end an
    * attribute value. */
  lemma EscapeHtmlSafe(s: string)
    ensures '<' !in EscapeHtml(s) && '>' !in EscapeHtml(s) && '"' !in EscapeHtml(s)
  {
    EscapeHtmlPerChar(s);
    EscapeCharsSafe(s);
  }
}
