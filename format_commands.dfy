/**
 * The toolbar and keyboard formatting commands: wrapping the selection in inline markers
 * (and unwrapping it again), line prefixes for quotes, lists and headings, and the code
 * and math block templates. Each command reads the main selection and dispatches one
 * transaction to the view.
 */
module FormatCommands {
  import opened Wrappers
  import opened Strings
  import opened TextDoc
  import opened EditorView

  // ---------------------------------------------------------------------------------
  // toggleWrap

  /** The number of consecutive `c` just before `pos`. */
  function RunLeft(doc: string, pos: nat, c: char): nat
    requires pos <= |doc|
  {
    if pos > 0 && doc[pos - 1] == c then RunLeft(doc, pos - 1, c) + 1 else 0
  }

  /** The number of consecutive `c` from `pos` on. */
  function RunRight(doc: string, pos: nat, c: char): nat
    requires pos <= |doc|
    decreases |doc| - pos
  {
    if pos < |doc| && doc[pos] == c then RunRight(doc, pos + 1, c) + 1 else 0
  }

  /** The left run is a maximal run of `c` ending at `pos`. */
  lemma {:induction false} RunLeftMaximal(doc: string, pos: nat, c: char)
    requires pos <= |doc|
    ensures RunLeft(doc, pos, c) <= pos
    ensures forall k :: pos - RunLeft(doc, pos, c) <= k < pos ==> doc[k] == c
    ensures pos - RunLeft(doc, pos, c) == 0 || doc[pos - RunLeft(doc, pos, c) - 1] != c
  {
    if pos > 0 && doc[pos - 1] == c {
      RunLeftMaximal(doc, pos - 1, c);
    }
  }

  /** The right run is a maximal run of `c` starting at `pos`. */
  lemma {:induction false} RunRightMaximal(doc: string, pos: nat, c: char)
    requires pos <= |doc|
    ensures pos + RunRight(doc, pos, c) <= |doc|
    ensures forall k :: pos <= k < pos + RunRight(doc, pos, c) ==> doc[k] == c
    ensures pos + RunRight(doc, pos, c) == |doc| || doc[pos + RunRight(doc, pos, c)] != c
    decreases |doc| - pos
  {
    if pos < |doc| && doc[pos] == c {
      RunRightMaximal(doc, pos + 1, c);
    }
  }

  /** The guard's first loop: counts the `c` before `from`, walking left. */
  method CountLeft(doc: string, from: nat, c: char) returns (left: nat)
    requires from <= |doc|
    ensures left == RunLeft(doc, from, c)
  {
    left := 0;
    var i: int := from - 1;
    while i >= 0 && doc[i] == c
      invariant -1 <= i < from && left == from - 1 - i
      invariant RunLeft(doc, from, c) == left + RunLeft(doc, i + 1, c)
      decreases i
    {
      left := left + 1;
      i := i - 1;
    }
  }

  /** The guard's second loop: counts the `c` from `to` on, walking right. */
  method CountRight(doc: string, to: nat, c: char) returns (right: nat)
    requires to <= |doc|
    ensures right == RunRight(doc, to, c)
  {
    right := 0;
    var i := to;
    while i < |doc| && doc[i] == c
      invariant to <= i <= |doc| && right == i - to
      invariant RunRight(doc, to, c) == right + RunRight(doc, i, c)
    {
      right := right + 1;
      i := i + 1;
    }
  }

  /** Which of the three cases of `toggleWrap` applies. */
  datatype WrapCase = Unwrap | Strip | Wrap

  /** The selection is itself wrapped in the markers. */
  predicate SelectionWrapped(selected: string, before: string, after: string) {
    StartsWith(selected, before) && EndsWith(selected, after) && |selected| >= |before| + |after|
  }

  /** The markers sit just outside `[from, to)`. */
  predicate MarkersOutside(doc: string, from: nat, to: nat, before: string, after: string)
    requires from <= to <= |doc|
  {
    from >= |before| && to + |after| <= |doc|
    && doc[from - |before|..from] == before && doc[to..to + |after|] == after
  }

  /** For one symmetric one-character marker, removal needs both adjacent runs odd: an even
    * run means every marker character there pairs into a longer marker. */
  predicate ShouldRemove(doc: string, from: nat, to: nat, before: string, after: string)
    requires from <= to <= |doc|
  {
    !(before == after && |before| == 1)
    || (RunLeft(doc, from, before[0]) % 2 != 0 && RunRight(doc, to, before[0]) % 2 != 0)
  }

  function WrapCaseOf(doc: string, from: nat, to: nat, before: string, after: string): WrapCase
    requires from <= to <= |doc|
  {
    if SelectionWrapped(doc[from..to], before, after) then Unwrap
    else if MarkersOutside(doc, from, to, before, after) && ShouldRemove(doc, from, to, before, after) then Strip
    else Wrap
  }

  /** The text `toggleWrap` wraps: the selection, or `text` for an empty one. */
  function WrapText(selected: string): string {
    if selected == "" then "text" else selected
  }

  /** The text the new selection covers: the inner text, the unchanged selection, or the
    * newly wrapped text. */
  function WrapCovered(doc: string, from: nat, to: nat, before: string, after: string): string
    requires from <= to <= |doc|
  {
    var selected := doc[from..to];
    match WrapCaseOf(doc, from, to, before, after)
    case Unwrap => selected[|before|..|selected| - |after|]
    case Strip => selected
    case Wrap => WrapText(selected)
  }

  /** The document and selection `toggleWrap` produces for the selection `[from, to)`. */
  function WrapResult(doc: string, from: nat, to: nat, before: string, after: string): (string, SelRange)
    requires from <= to <= |doc|
  {
    var selected := doc[from..to];
    match WrapCaseOf(doc, from, to, before, after)
    case Unwrap =>
      var inner := selected[|before|..|selected| - |after|];
      (Replace(doc, from, to, inner), SelRange(from, from + |inner|))
    case Strip =>
      var outerFrom := from - |before|;
      (doc[..outerFrom] + selected + doc[to + |after|..], SelRange(outerFrom, outerFrom + (to - from)))
    case Wrap =>
      var text := WrapText(selected);
      (Replace(doc, from, to, before + text + after), SelRange(from + |before|, from + |before| + |text|))
  }

  /** The new selection runs forward over exactly the covered text: the inner text when the
    * selection was wrapped, the unchanged text when the markers were outside it, the
    * wrapped text otherwise. */
  lemma WrapSelectsCovered(doc: string, from: nat, to: nat, before: string, after: string)
    requires from <= to <= |doc|
    ensures var (d, r) := WrapResult(doc, from, to, before, after);
      r.anchor <= r.head <= |d| && d[r.anchor..r.head] == WrapCovered(doc, from, to, before, after)
  {
    var (d, r) := WrapResult(doc, from, to, before, after);
    if WrapCaseOf(doc, from, to, before, after) == Wrap {
      var text := WrapText(doc[from..to]);
      assert d[from..] == before + text + after + doc[to..];
      assert d[r.anchor..r.head] == d[from..][|before|..|before| + |text|];
    } else if WrapCaseOf(doc, from, to, before, after) == Strip {
      var outerFrom := from - |before|;
      assert d[r.anchor..r.head] == (doc[..outerFrom] + doc[from..to] + doc[to + |after|..])[outerFrom..outerFrom + (to - from)];
    }
  }

  /** Outside the markers nothing changes: the text before the selection (less a marker
    * removed there) and after it (less a marker removed there) is kept. */
  lemma WrapKeepsOutside(doc: string, from: nat, to: nat, before: string, after: string)
    requires from <= to <= |doc|
    ensures var (d, _) := WrapResult(doc, from, to, before, after);
      match WrapCaseOf(doc, from, to, before, after)
      case Strip => d == doc[..from - |before|] + doc[from..to] + doc[to + |after|..]
      case Unwrap => d == doc[..from] + WrapCovered(doc, from, to, before, after) + doc[to..]
      case Wrap => d == doc[..from] + before + WrapCovered(doc, from, to, before, after) + after + doc[to..]
  {
  }

  /** For a one-character symmetric marker next to an even run of it, the markers are not
    * stripped: the selection is wrapped instead, unless it is itself wrapped. */
  lemma EvenRunKeepsMarkers(doc: string, from: nat, to: nat, m: char)
    requires from <= to <= |doc|
    requires RunLeft(doc, from, m) % 2 == 0 || RunRight(doc, to, m) % 2 == 0
    requires !SelectionWrapped(doc[from..to], [m], [m])
    ensures WrapCaseOf(doc, from, to, [m], [m]) == Wrap
  {
  }

  /** Where the pieces of a wrapped selection sit in the new text. */
  lemma WrappedLayout(doc: string, from: nat, to: nat, before: string, text: string, after: string)
    requires from <= to <= |doc|
    ensures var d := Replace(doc, from, to, before + text + after);
      var a := from + |before|;
      var h := a + |text|;
      && h + |after| <= |d|
      && d[a - |before|..a] == before && d[a..h] == text && d[h..h + |after|] == after
      && d[..from] == doc[..from] && d[h + |after|..] == doc[to..]
  {
    var d := Replace(doc, from, to, before + text + after);
    assert d[from..] == before + text + after + doc[to..];
  }

  /** After wrapping, the markers sit just outside the new selection, which is not itself
    * wrapped, so toggling again strips them (for markers that are not one symmetric
    * character). */
  lemma WrappedIsStrip(doc: string, from: nat, to: nat, before: string, after: string)
    requires from <= to <= |doc|
    requires !(before == after && |before| == 1)
    requires !SelectionWrapped(doc[from..to], before, after)
    requires from < to
    ensures var d := Replace(doc, from, to, before + doc[from..to] + after);
      var a := from + |before|;
      a + (to - from) <= |d| && WrapCaseOf(d, a, a + (to - from), before, after) == Strip
  {
    var selected := doc[from..to];
    WrappedLayout(doc, from, to, before, selected, after);
    var d := Replace(doc, from, to, before + selected + after);
    var a, h := from + |before|, from + |before| + |selected|;
    assert d[a..h] == selected;
    assert !SelectionWrapped(d[a..h], before, after);
    assert MarkersOutside(d, a, h, before, after);
    assert ShouldRemove(d, a, h, before, after);
  }

  /** Toggling twice restores the document: wrapping a non-empty selection and toggling the
    * resulting selection strips the markers again, when the markers are not one symmetric
    * character and the text neither was wrapped nor sat between the markers already. */
  lemma WrapThenStrip(doc: string, from: nat, to: nat, before: string, after: string)
    requires from < to <= |doc|
    requires !(before == after && |before| == 1)
    requires WrapCaseOf(doc, from, to, before, after) == Wrap
    ensures var (d, r) := WrapResult(doc, from, to, before, after);
      && r.anchor <= r.head <= |d|
      && WrapCaseOf(d, r.anchor, r.head, before, after) == Strip
      && WrapResult(d, r.anchor, r.head, before, after).0 == doc
  {
    var selected := doc[from..to];
    WrappedIsStrip(doc, from, to, before, after);
    WrappedLayout(doc, from, to, before, selected, after);
    var d := Replace(doc, from, to, before + selected + after);
    var a, h := from + |before|, from + |before| + |selected|;
    assert WrapResult(doc, from, to, before, after) == (d, SelRange(a, h));
    assert WrapResult(d, a, h, before, after).0 == d[..from] + d[a..h] + d[h + |after|..];
    assert doc == doc[..from] + selected + doc[to..];
  }

  /** The changes `toggleWrap` dispatches: one replacement of the selection when it is
    * itself wrapped or gets wrapped, two deletions of the markers around it otherwise. */
  function WrapChanges(doc: string, from: nat, to: nat, before: string, after: string): seq<Change>
    requires from <= to <= |doc|
  {
    var selected := doc[from..to];
    match WrapCaseOf(doc, from, to, before, after)
    case Unwrap => [Change(from, to, selected[|before|..|selected| - |after|])]
    case Strip => [Change(from - |before|, from, ""), Change(to, to + |after|, "")]
    case Wrap => [Change(from, to, before + WrapText(selected) + after)]
  }

  /** Removing the two markers is the single stitch of the text around them. */
  lemma StripChangesApply(doc: string, from: nat, to: nat, before: string, after: string)
    requires from <= to <= |doc| && WrapCaseOf(doc, from, to, before, after) == Strip
    ensures ChangesValid(WrapChanges(doc, from, to, before, after), |doc|)
    ensures ApplyChanges(doc, WrapChanges(doc, from, to, before, after)) == WrapResult(doc, from, to, before, after).0
  {
    var outerFrom, outerTo := from - |before|, to + |after|;
    ApplyTwo(doc, Change(outerFrom, from, ""), Change(to, outerTo, ""));
    assert doc[..outerFrom] + "" + doc[from..to] + "" + doc[outerTo..] == doc[..outerFrom] + doc[from..to] + doc[outerTo..];
  }

  /** The dispatched changes produce exactly the document of `WrapResult`. */
  lemma WrapChangesApply(doc: string, from: nat, to: nat, before: string, after: string)
    requires from <= to <= |doc|
    ensures ChangesValid(WrapChanges(doc, from, to, before, after), |doc|)
    ensures ApplyChanges(doc, WrapChanges(doc, from, to, before, after)) == WrapResult(doc, from, to, before, after).0
  {
    var selected := doc[from..to];
    var k := WrapCaseOf(doc, from, to, before, after);
    if k == Unwrap {
      ApplyOne(doc, Change(from, to, selected[|before|..|selected| - |after|]));
    } else if k == Strip {
      StripChangesApply(doc, from, to, before, after);
    } else {
      ApplyOne(doc, Change(from, to, before + WrapText(selected) + after));
    }
  }

  /** The guards of `toggleWrap`: is the selection wrapped, and otherwise are markers to
    * be stripped from around it, counting the adjacent marker runs for a one-character
    * symmetric marker. */
  method WrapGuard(doc: string, from: nat, to: nat, before: string, after: string) returns (k: WrapCase)
    requires from <= to <= |doc|
    ensures k == WrapCaseOf(doc, from, to, before, after)
  {
    if SelectionWrapped(doc[from..to], before, after) {
      return Unwrap;
    }
    if MarkersOutside(doc, from, to, before, after) {
      var shouldRemove := true;
      if before == after && |before| == 1 {
        var left := CountLeft(doc, from, before[0]);
        var right := CountRight(doc, to, before[0]);
        if left % 2 == 0 || right % 2 == 0 {
          shouldRemove := false;
        }
      }
      if shouldRemove {
        return Strip;
      }
    }
    return Wrap;
  }

  /** `toggleWrap(view, before, after)` on the main selection. */
  method ToggleWrap(view: View, before: string, after: string)
    requires view.Valid()
    modifies view
    ensures view.Valid()
    ensures var m := old(view.sel.Main());
      var (d, r) := WrapResult(old(view.doc), m.From(), m.To(), before, after);
      view.doc == d && view.sel == Selection([r], 0)
  {
    var main := view.sel.Main();
    var from, to := main.From(), main.To();
    var doc := view.doc;
    var selected := doc[from..to];
    WrapSelectsCovered(doc, from, to, before, after);
    WrapChangesApply(doc, from, to, before, after);
    ghost var changes := WrapChanges(doc, from, to, before, after);
    ghost var r := WrapResult(doc, from, to, before, after).1;
    var k := WrapGuard(doc, from, to, before, after);
    match k
    case Unwrap =>
      var inner := selected[|before|..|selected| - |after|];
      assert changes == [Change(from, to, inner)] && r == SelRange(from, from + |inner|);
      view.Dispatch([Change(from, to, inner)], Some(Single(from, from + |inner|)));
    case Strip =>
      var outerFrom, outerTo := from - |before|, to + |after|;
      assert changes == [Change(outerFrom, from, ""), Change(to, outerTo, "")];
      assert r == SelRange(outerFrom, outerFrom + (to - from));
      view.Dispatch([Change(outerFrom, from, ""), Change(to, outerTo, "")], Some(Single(outerFrom, outerFrom + (to - from))));
    case Wrap =>
      var text := if selected == "" then "text" else selected;
      assert changes == [Change(from, to, before + text + after)];
      assert r == SelRange(from + |before|, from + |before| + |text|);
      view.Dispatch([Change(from, to, before + text + after)], Some(Single(from + |before|, from + |before| + |text|)));
  }

  // ---------------------------------------------------------------------------------
  // insertAtLineStart

  /** The number of leading '#'. */
  function HashRun(text: string): (k: nat)
    ensures k <= |text|
  {
    if text != [] && text[0] == '#' then 1 + HashRun(text[1..]) else 0
  }

  /** The length of the `/^#{1,6}\s/` match at the start of the line, 0 when there is none:
    * one to six '#' (the whole run of them) and one whitespace character. */
  function HeadingPrefixLen(text: string): (n: nat)
    ensures n <= |text|
  {
    var k := HashRun(text);
    if 1 <= k <= 6 && k < |text| && IsSpace(text[k]) then k + 1 else 0
  }

  /** The line text after `insertAtLineStart`: the prefix is removed when the line starts
    * with it; otherwise it replaces the heading marker, if any, at the line start. */
  function PrefixedLine(text: string, prefix: string): string {
    if StartsWith(text, prefix) then text[|prefix|..]
    else prefix + text[HeadingPrefixLen(text)..]
  }

  /** A heading marker of `k` '#' and a space is replaced by the prefix. */
  lemma HeadingReplaced(k: nat, rest: string, prefix: string)
    requires 1 <= k <= 6
    requires !StartsWith(Repeat('#', k) + " " + rest, prefix)
    ensures PrefixedLine(Repeat('#', k) + " " + rest, prefix) == prefix + rest
  {
    var text := Repeat('#', k) + " " + rest;
    HashRunOf(k, " " + rest);
    assert text == Repeat('#', k) + (" " + rest);
    assert text[k + 1..] == rest;
  }

  lemma {:induction false} HashRunOf(k: nat, rest: string)
    requires rest == [] || rest[0] != '#'
    ensures HashRun(Repeat('#', k) + rest) == k
  {
    if k > 0 {
      assert (Repeat('#', k) + rest)[1..] == Repeat('#', k - 1) + rest;
      HashRunOf(k - 1, rest);
    }
  }

  /** The command toggles: applying it twice to a line that neither starts with the prefix
    * nor carries a heading marker gives the line back. */
  lemma PrefixTwice(text: string, prefix: string)
    requires !StartsWith(text, prefix) && HeadingPrefixLen(text) == 0
    ensures PrefixedLine(PrefixedLine(text, prefix), prefix) == text
  {
    assert PrefixedLine(text, prefix) == prefix + text;
    assert (prefix + text)[..|prefix|] == prefix;
    assert (prefix + text)[|prefix|..] == text;
  }

  /** The change `insertAtLineStart` makes to a line `text` starting at `lineFrom`: delete
    * the prefix, or replace the heading marker (possibly empty) by it. */
  function LineStartChange(lineFrom: nat, text: string, prefix: string): (c: Change)
    ensures c.from == lineFrom && c.to <= lineFrom + |text|
  {
    if StartsWith(text, prefix) then Change(lineFrom, lineFrom + |prefix|, "")
    else Change(lineFrom, lineFrom + HeadingPrefixLen(text), prefix)
  }

  /** The change rewrites the line `[a, b)` to its prefixed form and keeps the rest of the
    * document. */
  lemma LineStartChangeApply(doc: string, a: nat, b: nat, prefix: string)
    requires a <= b <= |doc|
    ensures ChangesValid([LineStartChange(a, doc[a..b], prefix)], |doc|)
    ensures ApplyChanges(doc, [LineStartChange(a, doc[a..b], prefix)])
         == doc[..a] + PrefixedLine(doc[a..b], prefix) + doc[b..]
  {
    var text := doc[a..b];
    var c := LineStartChange(a, text, prefix);
    var cut := c.to - a;
    assert PrefixedLine(text, prefix) == c.insert + text[cut..];
    ApplyOne(doc, c);
    ReplaceLineStart(doc, a, b, cut, c.insert);
  }

  /** Replacing the first `cut` characters of the line `[a, b)` keeps the rest of the line
    * and everything around it. */
  lemma ReplaceLineStart(doc: string, a: nat, b: nat, cut: nat, insert: string)
    requires a <= b <= |doc| && cut <= b - a
    ensures Replace(doc, a, a + cut, insert) == doc[..a] + (insert + doc[a..b][cut..]) + doc[b..]
  {
    assert doc[a + cut..] == doc[a..b][cut..] + doc[b..];
  }

  /** `insertAtLineStart(view, prefix)`: rewrites the start of the line holding the
    * selection's start; the rest of the document is kept and the selection is mapped. */
  method InsertAtLineStart(view: View, prefix: string)
    requires view.Valid()
    modifies view
    ensures view.Valid()
    ensures var doc := old(view.doc);
      var n := LineAt(doc, old(view.sel.Main()).From());
      1 <= n <= LineCount(doc)
      && view.doc == doc[..LineFrom(doc, n)] + PrefixedLine(LineText(doc, n), prefix) + doc[LineTo(doc, n)..]
      && view.sel == MapSelection(old(view.sel), [LineStartChange(LineFrom(doc, n), LineText(doc, n), prefix)])
  {
    var doc := view.doc;
    var from := view.sel.Main().From();
    LineBounds(doc, from);
    var n := LineAt(doc, from);
    var lineFrom := LineFrom(doc, n);
    var text := LineText(doc, n);
    var change;
    if StartsWith(text, prefix) {
      change := Change(lineFrom, lineFrom + |prefix|, "");
    } else {
      var removeLen := HeadingPrefixLen(text);
      change := Change(lineFrom, lineFrom + removeLen, prefix);
    }
    LineStartChangeApply(doc, lineFrom, LineTo(doc, n), prefix);
    view.Dispatch([change], None);
  }

  // ---------------------------------------------------------------------------------
  // toggleCode, insertCodeBlock, insertMathBlock

  /** `toggleCode`: fenced markers for a selection spanning lines, backticks otherwise. */
  method ToggleCode(view: View)
    requires view.Valid()
    modifies view
    ensures view.Valid()
    ensures var m := old(view.sel.Main());
      var (before, after) := if '\n' in old(view.doc)[m.From()..m.To()] then ("```\n", "\n```") else ("`", "`");
      var (d, r) := WrapResult(old(view.doc), m.From(), m.To(), before, after);
      view.doc == d && view.sel == Selection([r], 0)
  {
    var main := view.sel.Main();
    var selected := view.doc[main.From()..main.To()];
    if '\n' in selected {
      ToggleWrap(view, "```\n", "\n```");
    } else {
      ToggleWrap(view, "`", "`");
    }
  }

  /** The empty code block template. */
  const CodeBlockTemplate: string := "```\n\n```"

  /** `insertCodeBlock`: inserts the template at the selection's start and puts the cursor
    * on the empty line between the fences. */
  method InsertCodeBlock(view: View)
    requires view.Valid()
    modifies view
    ensures view.Valid()
    ensures var from := old(view.sel.Main()).From();
      && view.doc == old(view.doc)[..from] + CodeBlockTemplate + old(view.doc)[from..]
      && view.sel == Cursor(from + 4)
      && view.doc[from..from + 3] == "```" && view.doc[from + 3] == '\n' && view.doc[from + 4] == '\n'
  {
    var doc := view.doc;
    var from := view.sel.Main().From();
    ApplyOne(doc, Change(from, from, CodeBlockTemplate));
    view.Dispatch([Change(from, from, CodeBlockTemplate)], Some(Cursor(from + 4)));
  }

  /** The empty math block template. */
  const MathBlockTemplate: string := "$$\n\n$$"

  /** `insertMathBlock`: an empty or multi-line selection is replaced by the template with
    * the cursor on its empty line; a one-line selection toggles `$` wrapping instead. */
  method InsertMathBlock(view: View)
    requires view.Valid()
    modifies view
    ensures view.Valid()
    ensures var m := old(view.sel.Main());
      var selected := old(view.doc)[m.From()..m.To()];
      if '\n' in selected || selected == "" then
        && view.doc == old(view.doc)[..m.From()] + MathBlockTemplate + old(view.doc)[m.To()..]
        && view.sel == Cursor(m.From() + 3)
        && view.doc[m.From() + 2] == '\n' && view.doc[m.From() + 3] == '\n'
      else
        var (d, r) := WrapResult(old(view.doc), m.From(), m.To(), "$", "$");
        view.doc == d && view.sel == Selection([r], 0)
  {
    var doc := view.doc;
    var main := view.sel.Main();
    var from, to := main.From(), main.To();
    var selected := doc[from..to];
    if '\n' in selected || |selected| == 0 {
      ApplyOne(doc, Change(from, to, MathBlockTemplate));
      view.Dispatch([Change(from, to, MathBlockTemplate)], Some(Cursor(from + 3)));
    } else {
      ToggleWrap(view, "$", "$");
    }
  }
}
