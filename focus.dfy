/**
 * Focus mode: every visible line except the cursor lines gets a line decoration; lines
 * within `contextLines` of a cursor line are marked as context, the others are dimmed.
 * The plugin rebuilds its decorations when the selection, the document or the viewport
 * changes. JavaScript `Set<number>` values are sequences without repetition, in
 * insertion order.
 */
module Focus {
  import opened TextDoc
  import opened EditorView

  datatype LineKind = Context | Dimmed

  /** A line decoration at the start of a line (`dimmedLineDeco.range(line.from)`). */
  datatype LineDeco = LineDeco(from: nat, kind: LineKind)

  /** `Math.max(0, Math.floor(contextLines))` for a finite setting. */
  function NormalizeContextLines(contextLines: real): (r: nat)
    ensures contextLines >= 0.0 ==> r as real <= contextLines < r as real + 1.0
    ensures contextLines < 1.0 <==> r == 0
  {
    var f := contextLines.Floor;
    if f < 0 then 0 else f
  }

  /** Every head and every visible range lies in the document, as CodeMirror guarantees. */
  predicate ViewWithin(doc: string, sel: Selection, visibleRanges: seq<(nat, nat)>) {
    (forall i :: 0 <= i < |sel.ranges| ==> sel.ranges[i].head <= |doc|)
    && (forall k :: 0 <= k < |visibleRanges| ==> visibleRanges[k].0 <= visibleRanges[k].1 <= |doc|)
  }

  // ---------------------------------------------------------------------------------
  // Specification

  /** Line `n` holds the head of some selection range. */
  ghost predicate CursorLine(doc: string, sel: Selection, n: nat)
    requires ViewWithin(doc, sel, [])
  {
    exists i :: 0 <= i < |sel.ranges| && LineAt(doc, sel.ranges[i].head) == n
  }

  /** Line `n` exists and lies within `contextLines` lines of a cursor line. */
  ghost predicate ContextLine(doc: string, sel: Selection, contextLines: nat, n: nat)
    requires ViewWithin(doc, sel, [])
  {
    contextLines > 0 && 1 <= n <= LineCount(doc)
    && exists m: nat :: CursorLine(doc, sel, m) && m <= n + contextLines && n <= m + contextLines
  }

  /** The decoration of line `n`: none on a cursor line, else context or dimmed. */
  ghost function LineDecoOf(doc: string, sel: Selection, contextLines: nat, n: nat): seq<LineDeco>
    requires ViewWithin(doc, sel, []) && 1 <= n <= LineCount(doc)
  {
    if CursorLine(doc, sel, n) then []
    else [LineDeco(LineFrom(doc, n), if ContextLine(doc, sel, contextLines, n) then Context else Dimmed)]
  }

  /** The decorations of lines `first..last` in order. */
  ghost function LineDecos(doc: string, sel: Selection, contextLines: nat, first: nat, last: nat): seq<LineDeco>
    requires ViewWithin(doc, sel, []) && 1 <= first && last <= LineCount(doc)
    decreases last
  {
    if last < first then []
    else LineDecos(doc, sel, contextLines, first, last - 1) + LineDecoOf(doc, sel, contextLines, last)
  }

  /** The decorations of the lines touched by the first `k` visible ranges. */
  ghost function FocusDecorations(doc: string, sel: Selection, contextLines: nat, visibleRanges: seq<(nat, nat)>, k: nat): seq<LineDeco>
    requires ViewWithin(doc, sel, visibleRanges) && k <= |visibleRanges|
  {
    if k == 0 then []
    else
      var (from, to) := visibleRanges[k - 1];
      LineBounds(doc, from);
      LineBounds(doc, to);
      FocusDecorations(doc, sel, contextLines, visibleRanges, k - 1)
        + LineDecos(doc, sel, contextLines, LineAt(doc, from), LineAt(doc, to))
  }

  // ---------------------------------------------------------------------------------
  // Properties

  /** Each decoration of a range stands at the start of a line of the range that is not a
    * cursor line, and is context exactly when that line is a context line. */
  lemma {:induction false} DecoratesNonCursorLine(doc: string, sel: Selection, contextLines: nat, first: nat, last: nat, k: nat)
    returns (n: nat)
    requires ViewWithin(doc, sel, []) && 1 <= first && last <= LineCount(doc)
    requires k < |LineDecos(doc, sel, contextLines, first, last)|
    ensures first <= n <= last && !CursorLine(doc, sel, n)
    ensures LineDecos(doc, sel, contextLines, first, last)[k]
      == LineDeco(LineFrom(doc, n), if ContextLine(doc, sel, contextLines, n) then Context else Dimmed)
    decreases last
  {
    var prefix := LineDecos(doc, sel, contextLines, first, last - 1);
    if k < |prefix| {
      n := DecoratesNonCursorLine(doc, sel, contextLines, first, last - 1, k);
    } else {
      n := last;
    }
  }

  /** Every line of the range that is not a cursor line is decorated. */
  lemma {:induction false} NonCursorLineDecorated(doc: string, sel: Selection, contextLines: nat, first: nat, last: nat, n: nat)
    returns (k: nat)
    requires ViewWithin(doc, sel, []) && 1 <= first <= n <= last <= LineCount(doc) && !CursorLine(doc, sel, n)
    ensures k < |LineDecos(doc, sel, contextLines, first, last)|
    ensures LineDecos(doc, sel, contextLines, first, last)[k].from == LineFrom(doc, n)
    decreases last
  {
    var prefix := LineDecos(doc, sel, contextLines, first, last - 1);
    if n < last {
      k := NonCursorLineDecorated(doc, sel, contextLines, first, last - 1, n);
    } else {
      k := |prefix|;
    }
  }

  /** Without context lines, every decoration dims. */
  lemma NoContextAllDimmed(doc: string, sel: Selection, first: nat, last: nat, k: nat)
    requires ViewWithin(doc, sel, []) && 1 <= first && last <= LineCount(doc)
    requires k < |LineDecos(doc, sel, 0, first, last)|
    ensures LineDecos(doc, sel, 0, first, last)[k].kind == Dimmed
  {
    var n := DecoratesNonCursorLine(doc, sel, 0, first, last, k);
  }

  // ---------------------------------------------------------------------------------
  // Building the decorations

  /** The cursor line numbers (`cursorLines`), each once. */
  method CollectCursorLines(doc: string, sel: Selection) returns (cursorLines: seq<nat>)
    requires ViewWithin(doc, sel, [])
    ensures forall i, j :: 0 <= i < j < |cursorLines| ==> cursorLines[i] != cursorLines[j]
    ensures forall n :: n in cursorLines <==> CursorLine(doc, sel, n)
  {
    cursorLines := [];
    var i := 0;
    while i < |sel.ranges|
      invariant i <= |sel.ranges|
      invariant forall p, q :: 0 <= p < q < |cursorLines| ==> cursorLines[p] != cursorLines[q]
      invariant forall n :: n in cursorLines <==> exists j :: 0 <= j < i && LineAt(doc, sel.ranges[j].head) == n
    {
      var line := LineAt(doc, sel.ranges[i].head);
      if line !in cursorLines {
        cursorLines := cursorLines + [line];
      }
      i := i + 1;
    }
  }

  /** Some of the first `k` cursor lines lies within `contextLines` of `n`. */
  ghost predicate NearCursor(cursorLines: seq<nat>, k: nat, contextLines: nat, n: int)
    requires k <= |cursorLines|
  {
    exists j :: 0 <= j < k && cursorLines[j] <= n + contextLines && n <= cursorLines[j] + contextLines
  }

  /** Adds the lines `cursorLine - contextLines ..= cursorLine + contextLines` that exist. */
  method AddContextAround(contextLineSet: seq<nat>, cursorLine: nat, contextLines: nat, lines: nat) returns (next: seq<nat>)
    ensures forall n :: n in next <==>
      n in contextLineSet || (1 <= n <= lines && cursorLine <= n + contextLines && n <= cursorLine + contextLines)
  {
    next := contextLineSet;
    var i: int := -(contextLines as int);
    while i <= contextLines as int
      invariant -(contextLines as int) <= i <= contextLines as int + 1
      invariant forall n :: n in next <==>
        n in contextLineSet || (1 <= n <= lines && cursorLine <= n + contextLines && n < cursorLine + i)
    {
      var lineNum := cursorLine as int + i;
      if lineNum > 0 && lineNum <= lines as int && lineNum as nat !in next {
        next := next + [lineNum as nat];
      }
      i := i + 1;
    }
  }

  /** The context line numbers (`contextLineSet`): empty when `contextLines` is 0. */
  method CollectContextLines(cursorLines: seq<nat>, contextLines: nat, lines: nat) returns (contextLineSet: seq<nat>)
    ensures forall n :: n in contextLineSet <==>
      contextLines > 0 && 1 <= n <= lines && NearCursor(cursorLines, |cursorLines|, contextLines, n)
  {
    contextLineSet := [];
    if contextLines > 0 {
      var k := 0;
      while k < |cursorLines|
        invariant k <= |cursorLines|
        invariant forall n :: n in contextLineSet <==> 1 <= n <= lines && NearCursor(cursorLines, k, contextLines, n)
      {
        contextLineSet := AddContextAround(contextLineSet, cursorLines[k], contextLines, lines);
        k := k + 1;
      }
    }
  }

  /** The context lines computed from the cursor lines are the specified ones. */
  lemma ContextMatches(doc: string, sel: Selection, cursorLines: seq<nat>, contextLines: nat, n: nat)
    requires ViewWithin(doc, sel, [])
    requires forall m :: m in cursorLines <==> CursorLine(doc, sel, m)
    ensures (contextLines > 0 && 1 <= n <= LineCount(doc) && NearCursor(cursorLines, |cursorLines|, contextLines, n))
      <==> ContextLine(doc, sel, contextLines, n)
  {
    if NearCursor(cursorLines, |cursorLines|, contextLines, n) {
      var j :| 0 <= j < |cursorLines| && cursorLines[j] <= n + contextLines && n <= cursorLines[j] + contextLines;
      assert cursorLines[j] in cursorLines;
    }
    if contextLines > 0 && 1 <= n <= LineCount(doc) && ContextLine(doc, sel, contextLines, n) {
      var m: nat :| CursorLine(doc, sel, m) && m <= n + contextLines && n <= m + contextLines;
      assert m in cursorLines;
      var j :| 0 <= j < |cursorLines| && cursorLines[j] == m;
    }
  }

  /** Where the walk goes from `pos`: the next position is past the line of `pos`, and it
    * is either the start of the following line or past `to`, whose line is then done. */
  lemma NextPosition(doc: string, pos: nat, to: nat)
    requires pos <= to <= |doc|
    ensures 1 <= LineAt(doc, pos) <= LineCount(doc)
    ensures pos < LineTo(doc, LineAt(doc, pos)) + 1
    ensures LineTo(doc, LineAt(doc, pos)) + 1 <= to ==>
      LineAt(doc, pos) < LineCount(doc) && LineAt(doc, LineTo(doc, LineAt(doc, pos)) + 1) == LineAt(doc, pos) + 1
    ensures LineTo(doc, LineAt(doc, pos)) + 1 > to ==> LineAt(doc, to) == LineAt(doc, pos)
  {
    LineBounds(doc, pos);
    var n := LineAt(doc, pos);
    var next := LineTo(doc, n) + 1;
    if next <= to {
      LastLine(doc);
      NextLine(doc, n);
      LineAtIff(doc, next, n + 1);
    } else {
      LineAtIff(doc, to, n);
    }
  }

  /** One step of the walk over a visible range: the decoration of the line holding
    * `pos`, and the position after that line (`line.to + 1`). */
  method DecorateLine(doc: string, ghost sel: Selection, contextLines: nat, cursorLines: seq<nat>, contextLineSet: seq<nat>, pos: nat)
    returns (deco: seq<LineDeco>, next: nat)
    requires ViewWithin(doc, sel, []) && pos <= |doc|
    requires forall n :: n in cursorLines <==> CursorLine(doc, sel, n)
    requires forall n :: n in contextLineSet <==> ContextLine(doc, sel, contextLines, n)
    ensures 1 <= LineAt(doc, pos) <= LineCount(doc)
    ensures deco == LineDecoOf(doc, sel, contextLines, LineAt(doc, pos))
    ensures next == LineTo(doc, LineAt(doc, pos)) + 1
  {
    LineBounds(doc, pos);
    var lineNum := LineAt(doc, pos);
    var lineFrom := LineFrom(doc, lineNum);
    deco := [];
    if lineNum !in cursorLines {
      if lineNum in contextLineSet {
        deco := [LineDeco(lineFrom, Context)];
      } else {
        deco := [LineDeco(lineFrom, Dimmed)];
      }
    }
    next := LineTo(doc, lineNum) + 1;
  }

  /** The walk over `from..to` has decorated lines `first..n - 1` and stands at `pos`:
    * on line `n` while `pos <= to`, past the range once `n` is beyond its last line. */
  ghost predicate Walked(doc: string, sel: Selection, contextLines: nat, from: nat, to: nat, n: nat, pos: nat, decos: seq<LineDeco>)
    requires ViewWithin(doc, sel, []) && from <= to <= |doc|
  {
    LineBounds(doc, from);
    LineBounds(doc, to);
    pos <= |doc| + 1 && LineAt(doc, from) <= n <= LineAt(doc, to) + 1
    && (pos <= to ==> LineAt(doc, pos) == n)
    && (pos > to ==> n == LineAt(doc, to) + 1)
    && decos == LineDecos(doc, sel, contextLines, LineAt(doc, from), n - 1)
  }

  /** The walk starts on the first line of the range with nothing decorated. */
  lemma WalkStart(doc: string, sel: Selection, contextLines: nat, from: nat, to: nat)
    requires ViewWithin(doc, sel, []) && from <= to <= |doc|
    ensures Walked(doc, sel, contextLines, from, to, LineAt(doc, from), from, [])
  {
    LineBounds(doc, from);
    LineBounds(doc, to);
    LineAtMonotone(doc, from, to);
  }

  /** Once past the range, the walk has decorated exactly the range's lines. */
  lemma WalkDone(doc: string, sel: Selection, contextLines: nat, from: nat, to: nat, n: nat, pos: nat, decos: seq<LineDeco>)
    requires ViewWithin(doc, sel, []) && from <= to <= |doc| && to < pos
    requires Walked(doc, sel, contextLines, from, to, n, pos, decos)
    ensures 1 <= LineAt(doc, from) && LineAt(doc, to) <= LineCount(doc)
    ensures decos == LineDecos(doc, sel, contextLines, LineAt(doc, from), LineAt(doc, to))
  {
    LineBounds(doc, from);
    LineBounds(doc, to);
  }

  /** One step of the walk: decorate the line at `pos` and move past it. */
  method WalkStep(doc: string, ghost sel: Selection, contextLines: nat, cursorLines: seq<nat>, contextLineSet: seq<nat>,
                  from: nat, to: nat, ghost n: nat, pos: nat, decos: seq<LineDeco>)
    returns (decos': seq<LineDeco>, pos': nat)
    requires ViewWithin(doc, sel, []) && from <= pos <= to <= |doc|
    requires forall m :: m in cursorLines <==> CursorLine(doc, sel, m)
    requires forall m :: m in contextLineSet <==> ContextLine(doc, sel, contextLines, m)
    requires Walked(doc, sel, contextLines, from, to, n, pos, decos)
    ensures pos < pos' && Walked(doc, sel, contextLines, from, to, n + 1, pos', decos')
  {
    NextPosition(doc, pos, to);
    var deco;
    deco, pos' := DecorateLine(doc, sel, contextLines, cursorLines, contextLineSet, pos);
    decos' := decos + deco;
    LineBounds(doc, from);
    LineBounds(doc, to);
    assert LineDecos(doc, sel, contextLines, LineAt(doc, from), n)
      == LineDecos(doc, sel, contextLines, LineAt(doc, from), n - 1) + LineDecoOf(doc, sel, contextLines, n);
  }

  /** The decorations of the lines of one visible range. */
  method DecorateRange(doc: string, ghost sel: Selection, contextLines: nat, cursorLines: seq<nat>, contextLineSet: seq<nat>,
                       from: nat, to: nat)
    returns (decos: seq<LineDeco>)
    requires ViewWithin(doc, sel, []) && from <= to <= |doc|
    requires forall n :: n in cursorLines <==> CursorLine(doc, sel, n)
    requires forall n :: n in contextLineSet <==> ContextLine(doc, sel, contextLines, n)
    ensures 1 <= LineAt(doc, from) && LineAt(doc, to) <= LineCount(doc)
    ensures decos == LineDecos(doc, sel, contextLines, LineAt(doc, from), LineAt(doc, to))
  {
    WalkStart(doc, sel, contextLines, from, to);
    ghost var n := LineAt(doc, from);
    decos := [];
    var pos := from;
    while pos <= to
      invariant from <= pos <= |doc| + 1 && Walked(doc, sel, contextLines, from, to, n, pos, decos)
      decreases |doc| + 1 - pos
    {
      decos, pos := WalkStep(doc, sel, contextLines, cursorLines, contextLineSet, from, to, n, pos, decos);
      n := n + 1;
    }
    WalkDone(doc, sel, contextLines, from, to, n, pos, decos);
  }

  /** `buildDecorations(view)`: the decorations of every visible range, in order. */
  method BuildDecorations(doc: string, sel: Selection, visibleRanges: seq<(nat, nat)>, contextLines: nat)
    returns (decorations: seq<LineDeco>)
    requires ViewWithin(doc, sel, visibleRanges)
    ensures decorations == FocusDecorations(doc, sel, contextLines, visibleRanges, |visibleRanges|)
  {
    assert ViewWithin(doc, sel, []);
    var cursorLines := CollectCursorLines(doc, sel);
    var contextLineSet := CollectContextLines(cursorLines, contextLines, LineCount(doc));
    forall n ensures n in contextLineSet <==> ContextLine(doc, sel, contextLines, n) {
      ContextMatches(doc, sel, cursorLines, contextLines, n);
    }
    decorations := [];
    var k := 0;
    while k < |visibleRanges|
      invariant k <= |visibleRanges|
      invariant decorations == FocusDecorations(doc, sel, contextLines, visibleRanges, k)
    {
      var (from, to) := visibleRanges[k];
      var decos := DecorateRange(doc, sel, contextLines, cursorLines, contextLineSet, from, to);
      decorations := decorations + decos;
      k := k + 1;
    }
  }

  /** The focus-mode view plugin. */
  class FocusPlugin {
    const contextLines: nat
    var decorations: seq<LineDeco>

    constructor (doc: string, sel: Selection, visibleRanges: seq<(nat, nat)>, contextLines: nat)
      requires ViewWithin(doc, sel, visibleRanges)
      ensures this.contextLines == contextLines
      ensures decorations == FocusDecorations(doc, sel, contextLines, visibleRanges, |visibleRanges|)
    {
      var built := BuildDecorations(doc, sel, visibleRanges, contextLines);
      this.contextLines := contextLines;
      decorations := built;
    }

    /** `update(update)`: rebuilds when the selection, the document or the viewport
      * changed, and keeps the decorations otherwise. */
    method Update(selectionSet: bool, docChanged: bool, viewportChanged: bool,
                  doc: string, sel: Selection, visibleRanges: seq<(nat, nat)>)
      requires ViewWithin(doc, sel, visibleRanges)
      modifies this
      ensures selectionSet || docChanged || viewportChanged ==>
        decorations == FocusDecorations(doc, sel, contextLines, visibleRanges, |visibleRanges|)
      ensures !(selectionSet || docChanged || viewportChanged) ==> decorations == old(decorations)
    {
      if selectionSet || docChanged || viewportChanged {
        decorations := BuildDecorations(doc, sel, visibleRanges, contextLines);
      }
    }
  }

  /** `focusExtension(contextLines)`: the plugin created for a view, with the setting
    * normalised to a whole number of lines. */
  method FocusExtension(contextLines: real, doc: string, sel: Selection, visibleRanges: seq<(nat, nat)>)
    returns (plugin: FocusPlugin)
    requires ViewWithin(doc, sel, visibleRanges)
    ensures fresh(plugin) && plugin.contextLines == NormalizeContextLines(contextLines)
    ensures plugin.decorations == FocusDecorations(doc, sel, plugin.contextLines, visibleRanges, |visibleRanges|)
  {
    plugin := new FocusPlugin(doc, sel, visibleRanges, NormalizeContextLines(contextLines));
  }
}
