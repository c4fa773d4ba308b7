/**
 * The markdown-it set-up of the preview (`markdownConfig.ts`): the `$...$` inline rule,
 * the `$$` block rule, and the `highlight` hook that picks how a fenced code block is
 * rendered. KaTeX and Prism are left outside: Prism's language table and highlighter
 * are parameters.
 */
module MarkdownConfig {
  import opened Wrappers
  import opened Strings
  import opened MarkdownState
  import opened HtmlEscape

  // ---------------------------------------------------------------------------------
  // mathInline

  /** Where `mathInline`'s scan stops when it starts at `e`: at the first '$' before
    * `posMax`, stepping over the character after each '\\', or at or past `posMax`. */
  function ScanEnd(src: string, posMax: nat, e: nat): (r: nat)
    requires posMax <= |src|
    ensures e <= r
    decreases if e < posMax then posMax - e else 0
  {
    if e < posMax && src[e] != '$' then ScanEnd(src, posMax, if src[e] == '\\' then e + 2 else e + 1)
    else e
  }

  /** Where the scan stops before `posMax` there is a '$'. */
  lemma {:induction false} ScanEndShape(src: string, posMax: nat, e: nat)
    requires posMax <= |src|
    ensures ScanEnd(src, posMax, e) < posMax ==> src[ScanEnd(src, posMax, e)] == '$'
    decreases if e < posMax then posMax - e else 0
  {
    if e < posMax && src[e] != '$' {
      ScanEndShape(src, posMax, if src[e] == '\\' then e + 2 else e + 1);
    }
  }

  /** Without backslashes the scan stops at the first '$'. */
  lemma {:induction false} ScanEndFirstDollar(src: string, posMax: nat, e: nat, k: nat)
    requires posMax <= |src| && e <= k < posMax && src[k] == '$'
    requires forall j :: e <= j < k ==> src[j] != '$' && src[j] != '\\'
    ensures ScanEnd(src, posMax, e) == k
    decreases k - e
  {
    if e < k {
      ScanEndFirstDollar(src, posMax, e + 1, k);
    }
  }

  /** With no '$' before `posMax` the scan runs to the end. */
  lemma {:induction false} ScanEndNoDollar(src: string, posMax: nat, e: nat)
    requires posMax <= |src|
    requires forall j :: e <= j < posMax ==> src[j] != '$'
    ensures ScanEnd(src, posMax, e) >= posMax
    decreases if e < posMax then posMax - e else 0
  {
    if e < posMax {
      ScanEndNoDollar(src, posMax, if src[e] == '\\' then e + 2 else e + 1);
    }
  }

  /** `mathInline` at `pos`: the position of the closing '$' and the text between, or
    * `None` when the rule does not match. */
  function InlineMath(src: string, pos: nat, posMax: nat): Option<(nat, string)>
    requires posMax <= |src|
  {
    if pos >= |src| || src[pos] != '$' then None
    else if pos + 1 < |src| && src[pos + 1] == '$' then None
    else
      var end := ScanEnd(src, posMax, pos + 1);
      if end >= posMax then None else Some((end, src[pos + 1..end]))
  }

  /** A match opens with a single '$' and closes at a '$' before `posMax`, and the content
    * is the text strictly between the two. */
  lemma InlineMathMatch(src: string, pos: nat, posMax: nat)
    requires posMax <= |src| && InlineMath(src, pos, posMax).Some?
    ensures var (end, content) := InlineMath(src, pos, posMax).value;
      src[pos] == '$' && (pos + 1 < |src| ==> src[pos + 1] != '$')
      && pos < end < posMax && src[end] == '$' && content == src[pos + 1..end]
  {
    ScanEndShape(src, posMax, pos + 1);
  }

  /** `$$` never starts inline math. */
  lemma InlineMathRejectsDouble(src: string, pos: nat, posMax: nat)
    requires posMax <= |src| && pos + 1 < |src| && src[pos] == '$' && src[pos + 1] == '$'
    ensures InlineMath(src, pos, posMax).None?
  {
  }

  /** A '$' with a later '$' before `posMax`, and neither '$' nor '\\' between them, gives
    * exactly the text between the two. */
  lemma InlineMathPlain(src: string, pos: nat, posMax: nat, k: nat)
    requires posMax <= |src| && pos < k < posMax && src[pos] == '$' && src[k] == '$'
    requires forall j :: pos < j < k ==> src[j] != '$' && src[j] != '\\'
    ensures k == pos + 1 ==> InlineMath(src, pos, posMax).None?
    ensures k > pos + 1 ==> InlineMath(src, pos, posMax) == Some((k, src[pos + 1..k]))
  {
    if k > pos + 1 {
      ScanEndFirstDollar(src, posMax, pos + 1, k);
    }
  }

  /** An opening '$' with no other '$' before `posMax` matches nothing. */
  lemma InlineMathUnclosed(src: string, pos: nat, posMax: nat)
    requires posMax <= |src| && forall j :: pos < j < posMax ==> src[j] != '$'
    ensures InlineMath(src, pos, posMax).None?
  {
    if pos < |src| && src[pos] == '$' && !(pos + 1 < |src| && src[pos + 1] == '$') {
      ScanEndNoDollar(src, posMax, pos + 1);
    }
  }

  /** The `math_inline` token of a match. */
  function InlineToken(content: string): Token {
    Token("math_inline", "math", 0, content, "$", None, false)
  }

  /** `mathInline(state, silent)`: on a match, the position moves past the closing '$'
    * and, unless silent, one `math_inline` token is pushed; otherwise nothing changes. */
  method MathInline(state: InlineState, silent: bool) returns (ok: bool)
    requires state.Valid()
    modifies state
    ensures var m := InlineMath(state.src, old(state.pos), state.posMax);
      && ok == m.Some?
      && (ok ==> state.pos == m.value.0 + 1)
      && (!ok ==> state.pos == old(state.pos))
      && state.tokens == if ok && !silent then old(state.tokens) + [InlineToken(m.value.1)] else old(state.tokens)
  {
    var src := state.src;
    var pos := state.pos;
    if pos >= |src| || src[pos] != '$' {
      return false;
    }
    if pos + 1 < |src| && src[pos + 1] == '$' {
      return false;
    }
    var start := pos + 1;
    var end := start;
    while end < state.posMax && src[end] != '$'
      invariant start <= end
      invariant ScanEnd(src, state.posMax, end) == ScanEnd(src, state.posMax, start)
      decreases if end < state.posMax then state.posMax - end else 0
    {
      if src[end] == '\\' {
        end := end + 1;
      }
      end := end + 1;
    }
    if end >= state.posMax {
      return false;
    }
    if !silent {
      var content := src[start..end];
      state.Push(InlineToken(content));
    }
    state.pos := end + 1;
    return true;
  }

  // ---------------------------------------------------------------------------------
  // mathBlock

  /** A line whose text, trimmed, is `$$`. */
  predicate IsFenceLine(st: BlockState, l: nat)
    requires st.Valid() && l < st.LineCount()
  {
    Trim(st.LineText(l)) == "$$"
  }

  /** The first `$$` line in `[l, endLine)`. */
  function ClosingLine(st: BlockState, l: nat, endLine: nat): (r: Option<nat>)
    requires st.Valid() && endLine <= st.LineCount()
    decreases if l < endLine then endLine - l else 0
  {
    if l >= endLine then None
    else if IsFenceLine(st, l) then Some(l)
    else ClosingLine(st, l + 1, endLine)
  }

  /** What `ClosingLine` finds is a `$$` line of the range with none before it. */
  lemma {:induction false} ClosingLineFirst(st: BlockState, l: nat, endLine: nat)
    requires st.Valid() && endLine <= st.LineCount() && ClosingLine(st, l, endLine).Some?
    ensures var c := ClosingLine(st, l, endLine).value;
      l <= c < endLine && IsFenceLine(st, c) && forall k :: l <= k < c ==> !IsFenceLine(st, k)
    decreases if l < endLine then endLine - l else 0
  {
    if !IsFenceLine(st, l) {
      ClosingLineFirst(st, l + 1, endLine);
    }
  }

  /** `ClosingLine` finds nothing only when the range holds no `$$` line. */
  lemma {:induction false} ClosingLineNone(st: BlockState, l: nat, endLine: nat)
    requires st.Valid() && endLine <= st.LineCount() && ClosingLine(st, l, endLine).None?
    ensures forall k :: l <= k < endLine ==> !IsFenceLine(st, k)
    decreases if l < endLine then endLine - l else 0
  {
    if l < endLine {
      ClosingLineNone(st, l + 1, endLine);
    }
  }

  /** The line starts, after its indentation, with `$$`. */
  predicate OpensBlock(st: BlockState, line: nat)
    requires st.Valid() && line < st.LineCount()
  {
    var startPos := st.bMarks[line] + st.tShift[line];
    startPos + 2 <= st.eMarks[line] && st.src[startPos..startPos + 2] == "$$"
  }

  /** The `math_block` token for the lines strictly between `startLine` and `close`. */
  function BlockToken(content: string, startLine: nat, close: nat): Token {
    Token("math_block", "math", 0, content, "$$", Some((startLine, close + 1)), true)
  }

  /** `mathBlock(state, startLine, endLine, silent)`. `getLines` stands for markdown-it's
    * `state.getLines(begin, end, indent, false)`. A silent probe only checks the opening
    * `$$`; otherwise a closing `$$` line before `endLine` is needed, and then the token is
    * pushed and the parser continues after the closing line. */
  method MathBlock(state: BlockState, startLine: nat, endLine: nat, silent: bool,
                   getLines: (nat, nat, nat) -> string) returns (ok: bool)
    requires state.Valid() && startLine < endLine <= state.LineCount()
    modifies state
    ensures var close := ClosingLine(state, startLine + 1, endLine);
      && ok == (OpensBlock(state, startLine) && (silent || close.Some?))
      && (ok && !silent ==>
            state.line == close.value + 1
            && state.tokens == old(state.tokens)
               + [BlockToken(Trim(getLines(startLine + 1, close.value, state.tShift[startLine])), startLine, close.value)])
      && (!ok || silent ==> state.line == old(state.line) && state.tokens == old(state.tokens))
  {
    var startPos := state.bMarks[startLine] + state.tShift[startLine];
    var maxPos := state.eMarks[startLine];
    if startPos + 2 > maxPos {
      return false;
    }
    if state.src[startPos..startPos + 2] != "$$" {
      return false;
    }
    if silent {
      return true;
    }
    var nextLine := startLine + 1;
    var found := false;
    while nextLine < endLine
      invariant startLine + 1 <= nextLine <= endLine
      invariant ClosingLine(state, startLine + 1, endLine) == ClosingLine(state, nextLine, endLine)
      decreases endLine - nextLine
    {
      if Trim(state.LineText(nextLine)) == "$$" {
        found := true;
        break;
      }
      nextLine := nextLine + 1;
    }
    if !found {
      return false;
    }
    var content := Trim(getLines(startLine + 1, nextLine, state.tShift[startLine]));
    state.Push(BlockToken(content, startLine, nextLine));
    state.line := nextLine + 1;
    return true;
  }

  // ---------------------------------------------------------------------------------
  // highlight

  /** The `highlight` hook for a fence with text `code` and info `lang`. `known(lang)` is
    * whether Prism has a grammar for the language and `prism` its highlighter. */
  function Highlight(code: string, lang: string, known: string -> bool, prism: string -> string): string {
    if lang == "mermaid" then
      "<pre class=\"mermaid-block\"><code class=\"language-mermaid\">" + EscapeHtml(code) + "</code></pre>"
    else if lang != "" && known(lang) then
      "<pre class=\"language-" + lang + "\"><code class=\"language-" + lang + "\">" + prism(code) + "</code></pre>"
    else "<pre><code>" + EscapeHtml(code) + "</code></pre>"
  }

  /** Mermaid code goes into a `mermaid-block` pre, escaped; code in a language Prism does
    * not know is escaped in a plain pre; only a known language reaches Prism. In the
    * escaped branches the code part holds no '<', '>' or '"' and decodes back to the code. */
  lemma HighlightBranches(code: string, lang: string, known: string -> bool, prism: string -> string)
    ensures var out := Highlight(code, lang, known, prism);
      && (lang == "mermaid" ==> out == "<pre class=\"mermaid-block\"><code class=\"language-mermaid\">" + EscapeHtml(code) + "</code></pre>")
      && (lang != "mermaid" && (lang == "" || !known(lang)) ==> out == "<pre><code>" + EscapeHtml(code) + "</code></pre>")
      && (lang != "mermaid" && lang != "" && known(lang) ==>
            out == "<pre class=\"language-" + lang + "\"><code class=\"language-" + lang + "\">" + prism(code) + "</code></pre>")
    ensures '<' !in EscapeHtml(code) && '>' !in EscapeHtml(code) && '"' !in EscapeHtml(code)
    ensures UnescapeHtml(EscapeHtml(code)) == code
  {
    EscapeHtmlSafe(code);
    UnescapeEscape(code);
  }
}
