/**
 * Math in the live preview (`BlockMathWidget.ts`, `appendMathDecorations`): a first pass
 * over the lines pairs `$$` fence lines into display blocks, a second pass finds inline
 * `$…$` spans line by line. Code ranges and the blocks found in the first pass are
 * excluded from the second; a block or span under the selection or on the cursor line is
 * left as source. Widgets are plain records here, rendering is not modelled.
 */
module BlockMath {
  import opened Wrappers
  import opened Strings
  import opened TextDoc
  import opened RangeUtils
  import InlineHtml

  /** A replacing widget over `[from, to)`: display math for a block, inline math for a span. */
  datatype MathDeco = BlockWidget(content: string, from: nat, to: nat) | InlineWidget(content: string, from: nat, to: nat)

  /** A closed block: its opening and closing fence lines and the lines collected between. */
  datatype MathBlock = MathBlock(openLine: nat, closeLine: nat, lines: seq<string>)

  /** The fence lines of a block are lines `1..count` of the document, in order. */
  predicate Within(b: MathBlock, count: nat) {
    1 <= b.openLine < b.closeLine <= count
  }

  /** A fence: a line outside every code range whose trimmed text is `$$`. */
  predicate IsFence(doc: string, code: seq<DocRange>, n: nat)
    requires 1 <= n <= LineCount(doc)
  {
    !Covered(code, LineFrom(doc, n)) && Trim(LineText(doc, n)) == "$$"
  }

  /** Which lines are fences: entry `k` is about line `k + 1`. */
  function FenceFlags(doc: string, code: seq<DocRange>): (r: seq<bool>)
    ensures |r| == LineCount(doc)
  {
    seq(LineCount(doc), i requires 0 <= i < LineCount(doc) => IsFence(doc, code, i + 1))
  }

  lemma FenceFlagAt(doc: string, code: seq<DocRange>, k: nat)
    requires 1 <= k <= LineCount(doc)
    ensures FenceFlags(doc, code)[k - 1] == IsFence(doc, code, k)
  {
  }

  /** The texts of the lines: entry `k` is the text of line `k + 1`. */
  function LineTexts(doc: string): (r: seq<string>)
    ensures |r| == LineCount(doc)
  {
    seq(LineCount(doc), i requires 0 <= i < LineCount(doc) => LineText(doc, i + 1))
  }

  lemma LineTextAt(doc: string, k: nat)
    requires 1 <= k <= LineCount(doc)
    ensures LineTexts(doc)[k - 1] == LineText(doc, k)
  {
  }

  /** A widget is suppressed while the selection touches its range or the cursor line lies
    * within it. */
  predicate Active(doc: string, sel: DocRange, cursorLine: int, from: nat, to: int)
    requires from <= |doc| && to - 1 <= |doc|
  {
    IsSelectionInRange(sel, from, to) || IsCursorOnRangeLine(doc, cursorLine, from, to)
  }

  // ---------------------------------------------------------------------------
  // Block pass

  /** The blocks the first pass closes from line `n` on, given which lines are fences and
    * their texts, with the block opened on line `open` (if any) having collected `lines`
    * so far. */
  function BlocksFrom(fence: seq<bool>, text: seq<string>, n: nat, open: Option<nat>, lines: seq<string>): (r: seq<MathBlock>)
    requires |text| == |fence| && 1 <= n <= |fence| + 1
    requires open.Some? ==> 1 <= open.value < n
    ensures forall k :: 0 <= k < |r| ==> Within(r[k], |fence|)
    decreases |fence| + 1 - n
  {
    if n > |fence| then []
    else if open.None? then
      if fence[n - 1] then BlocksFrom(fence, text, n + 1, Some(n), [])
      else BlocksFrom(fence, text, n + 1, None, lines)
    else if fence[n - 1] then [MathBlock(open.value, n, lines)] + BlocksFrom(fence, text, n + 1, None, lines)
    else BlocksFrom(fence, text, n + 1, open, lines + [text[n - 1]])
  }

  function Blocks(doc: string, code: seq<DocRange>): (r: seq<MathBlock>)
    ensures forall k :: 0 <= k < |r| ==> Within(r[k], LineCount(doc))
  {
    BlocksFrom(FenceFlags(doc, code), LineTexts(doc), 1, None, [])
  }

  /** The range a block replaces: from the start of its opening line to the end of its
    * closing line. */
  function BlockRange(doc: string, b: MathBlock): DocRange
    requires Within(b, LineCount(doc))
  {
    DocRange(LineFrom(doc, b.openLine), LineTo(doc, b.closeLine))
  }

  function BlockRanges(doc: string, bs: seq<MathBlock>): seq<DocRange>
    requires forall k :: 0 <= k < |bs| ==> Within(bs[k], LineCount(doc))
  {
    if bs == [] then [] else [BlockRange(doc, bs[0])] + BlockRanges(doc, bs[1..])
  }

  function BlockDeco(doc: string, b: MathBlock, sel: DocRange, cursorLine: int): seq<MathDeco>
    requires Within(b, LineCount(doc))
  {
    var r := BlockRange(doc, b);
    if Active(doc, sel, cursorLine, r.from, r.to) then [] else [BlockWidget(Join(b.lines, '\n'), r.from, r.to)]
  }

  function BlockDecos(doc: string, bs: seq<MathBlock>, sel: DocRange, cursorLine: int): seq<MathDeco>
    requires forall k :: 0 <= k < |bs| ==> Within(bs[k], LineCount(doc))
  {
    if bs == [] then [] else BlockDeco(doc, bs[0], sel, cursorLine) + BlockDecos(doc, bs[1..], sel, cursorLine)
  }

  // ---------------------------------------------------------------------------
  // Inline spans: /(?<!\$)\$(?!\$)(.+?)\$(?!\$)/g on one line

  /** The characters `.` does not match without the `s` flag. */
  predicate IsLineTerminator(c: char) {
    c == '\n' || c == '\r' || c == '\U{2028}' || c == '\U{2029}'
  }

  /** A `$` not preceded and not followed by another `$`. */
  predicate OpensAt(t: string, i: nat)
    requires i < |t|
  {
    t[i] == '$' && (i == 0 || t[i - 1] != '$') && (i + 1 == |t| || t[i + 1] != '$')
  }

  /** A `$` not followed by another `$`. */
  predicate ClosesAt(t: string, j: nat)
    requires j < |t|
  {
    t[j] == '$' && (j + 1 == |t| || t[j + 1] != '$')
  }

  /** The lazy `(.+?)\$(?!\$)` after an opening `$` at `i`: the first closing position at or
    * after `j` reached without crossing a line terminator. */
  function CloseFrom(t: string, j: nat): (r: Option<nat>)
    requires 1 <= j
    ensures r.Some? ==> j <= r.value < |t|
    decreases |t| - j
  {
    if j >= |t| || IsLineTerminator(t[j - 1]) then None
    else if ClosesAt(t, j) then Some(j)
    else CloseFrom(t, j + 1)
  }

  /** The close found is the first closing `$` from `j` on, and no line terminator lies
    * between the opening `$` at `i` and it. */
  lemma {:induction false} CloseFromFacts(t: string, i: nat, j: nat)
    requires i + 2 <= j
    requires forall k :: i < k < j - 1 && k < |t| ==> !IsLineTerminator(t[k])
    ensures var r := CloseFrom(t, j);
      r.Some? ==> (ClosesAt(t, r.value)
                   && (forall k :: j <= k < r.value ==> !ClosesAt(t, k))
                   && (forall k :: i < k < r.value ==> !IsLineTerminator(t[k])))
    decreases |t| - j
  {
    if j < |t| && !IsLineTerminator(t[j - 1]) && !ClosesAt(t, j) {
      CloseFromFacts(t, i, j + 1);
    }
  }

  /** No line terminator lies strictly between `i` and `j`. */
  predicate OnOneLine(t: string, i: nat, j: nat)
    requires j <= |t|
  {
    forall k :: i < k < j ==> !IsLineTerminator(t[k])
  }

  /** The regex can close a match opened at `i` with the `$` at `j`. */
  predicate ClosableAt(t: string, i: nat, j: nat) {
    i + 2 <= j < |t| && ClosesAt(t, j) && OnOneLine(t, i, j)
  }

  /** The regex matches at `i`: a lone `$` that some later `$` on the same line can close. */
  predicate HasMatchAt(t: string, i: nat) {
    i < |t| && OpensAt(t, i) && exists j :: i + 2 <= j < |t| && ClosableAt(t, i, j)
  }

  /** When no close is found from `j` on, no `$` from `j` on can close the match at `i`. */
  lemma {:induction false} CloseFromNone(t: string, i: nat, j: nat)
    requires i + 2 <= j
    requires forall k :: i < k < j - 1 && k < |t| ==> !IsLineTerminator(t[k])
    requires CloseFrom(t, j).None?
    ensures forall q :: j <= q ==> !ClosableAt(t, i, q)
    decreases |t| - j
  {
    if j < |t| && !IsLineTerminator(t[j - 1]) {
      CloseFromNone(t, i, j + 1);
    } else if j < |t| {
      forall q | j <= q && q < |t| ensures !OnOneLine(t, i, q) {
        assert i < j - 1 < q && IsLineTerminator(t[j - 1]);
      }
    }
  }

  /** `exec` from `lastIndex`: the leftmost match at or after `from`, as the positions of its
    * opening and closing `$`. */
  function NextMatch(t: string, from: nat): (r: Option<(nat, nat)>)
    ensures r.Some? ==> from <= r.value.0 && r.value.0 + 2 <= r.value.1 < |t|
    decreases |t| - from
  {
    if from >= |t| then None
    else if OpensAt(t, from) && CloseFrom(t, from + 2).Some? then Some((from, CloseFrom(t, from + 2).value))
    else NextMatch(t, from + 1)
  }

  /** A match opens with a lone `$`, closes with the first `$` not followed by another one
    * that comes at least two characters later, and stays within one line. */
  lemma {:induction false} NextMatchFacts(t: string, from: nat)
    ensures var r := NextMatch(t, from);
      r.Some? ==> (OpensAt(t, r.value.0) && ClosesAt(t, r.value.1)
                   && (forall k :: r.value.0 < k < r.value.1 ==> !IsLineTerminator(t[k]))
                   && (forall k :: r.value.0 + 2 <= k < r.value.1 ==> !ClosesAt(t, k)))
    ensures var r := NextMatch(t, from);
      r.Some? ==> HasMatchAt(t, r.value.0) && forall k :: from <= k < r.value.0 ==> !HasMatchAt(t, k)
    ensures NextMatch(t, from).None? ==> forall k :: from <= k ==> !HasMatchAt(t, k)
    decreases |t| - from
  {
    if from < |t| {
      if OpensAt(t, from) && CloseFrom(t, from + 2).Some? {
        CloseFromFacts(t, from, from + 2);
        assert ClosableAt(t, from, CloseFrom(t, from + 2).value);
      } else {
        if OpensAt(t, from) {
          CloseFromNone(t, from, from + 2);
        }
        NextMatchFacts(t, from + 1);
      }
    }
  }

  function InlineDeco(doc: string, content: string, from: nat, to: nat, ex: seq<DocRange>, sel: DocRange, cursorLine: int): seq<MathDeco>
    requires from < to <= |doc|
  {
    if Covered(ex, from) || Covered(ex, to - 1) || Active(doc, sel, cursorLine, from, to) then []
    else [InlineWidget(content, from, to)]
  }

  /** The inline widgets for the matches found in line text `t`, which starts at document
    * position `start`, from index `from` on. */
  function InlineFrom(doc: string, t: string, start: nat, ex: seq<DocRange>, sel: DocRange, cursorLine: int, from: nat): seq<MathDeco>
    requires start + |t| <= |doc|
    decreases |t| - from
  {
    match NextMatch(t, from)
    case None => []
    case Some(m) =>
      InlineDeco(doc, t[m.0 + 1..m.1], start + m.0, start + m.1 + 1, ex, sel, cursorLine)
      + InlineFrom(doc, t, start, ex, sel, cursorLine, m.1 + 1)
  }

  /** The inline widgets of lines `n` on. */
  function LinesFrom(doc: string, ex: seq<DocRange>, sel: DocRange, cursorLine: int, n: nat): seq<MathDeco>
    requires 1 <= n <= LineCount(doc) + 1
    decreases LineCount(doc) + 1 - n
  {
    if n > LineCount(doc) then []
    else InlineFrom(doc, LineText(doc, n), LineFrom(doc, n), ex, sel, cursorLine, 0) + LinesFrom(doc, ex, sel, cursorLine, n + 1)
  }

  /** All inline widgets of the document, in line order and left to right. */
  function InlineDecos(doc: string, ex: seq<DocRange>, sel: DocRange, cursorLine: int): seq<MathDeco> {
    LinesFrom(doc, ex, sel, cursorLine, 1)
  }

  /** The ranges the inline pass avoids: the code ranges and the block ranges, sorted by start. */
  function Excluded(doc: string, code: seq<DocRange>): seq<DocRange> {
    InlineHtml.SortRanges(code + BlockRanges(doc, Blocks(doc, code)))
  }

  /** Everything `appendMathDecorations` pushes, in order. */
  function MathDecorations(doc: string, sel: DocRange, cursorLine: int, code: seq<DocRange>): seq<MathDeco> {
    BlockDecos(doc, Blocks(doc, code), sel, cursorLine) + InlineDecos(doc, Excluded(doc, code), sel, cursorLine)
  }

  // ---------------------------------------------------------------------------
  // The pass itself

  /** The `$$` pass of `appendMathDecorations`: the caller's decorations followed by a widget
    * for every block the cursor is not in, and the ranges of all blocks. The caller hands
    * in its code ranges sorted by start, which makes the range checker exact. */
  method BlockMathPass(doc: string, decorations: seq<MathDeco>, cursor: DocRange, cursorLine: int, codeRanges: seq<DocRange>)
    returns (out: seq<MathDeco>, blockMathRanges: seq<DocRange>)
    requires SortedByFrom(codeRanges)
    ensures out == decorations + BlockDecos(doc, Blocks(doc, codeRanges), cursor, cursorLine)
    ensures blockMathRanges == BlockRanges(doc, Blocks(doc, codeRanges))
  {
    blockMathRanges := [];
    var isInCodeRange := new RangeChecker(codeRanges);
    var blockStart: Option<nat> := None;
    var blockLines: seq<string> := [];
    ghost var fence := FenceFlags(doc, codeRanges);
    ghost var text := LineTexts(doc);
    ghost var open: Option<nat> := None;
    ghost var allDecos := decorations + BlockDecos(doc, Blocks(doc, codeRanges), cursor, cursorLine);
    ghost var allRanges := BlockRanges(doc, Blocks(doc, codeRanges));
    out := decorations;

    for lineNo := 1 to LineCount(doc) + 1
      invariant isInCodeRange.Valid() && isInCodeRange.ranges == codeRanges
      invariant isInCodeRange.asked ==> 1 < lineNo && isInCodeRange.highest <= LineFrom(doc, lineNo - 1)
      invariant PassState(doc, fence, text, lineNo, cursor, cursorLine, blockStart, blockLines, open, out, blockMathRanges, allDecos, allRanges)
    {
      blockStart, blockLines, out, blockMathRanges, open :=
        PassLine(doc, fence, text, lineNo, cursor, cursorLine, blockStart, blockLines, open,
                 out, blockMathRanges, allDecos, allRanges, isInCodeRange);
    }
  }

  /** One iteration of the block pass, on line `n`: its fence test, asked of the code range
    * checker at the line's start, and the block step. */
  method PassLine(doc: string, ghost fence: seq<bool>, ghost text: seq<string>, n: nat, cursor: DocRange, cursorLine: int,
                  blockStart: Option<nat>, blockLines: seq<string>, ghost open: Option<nat>,
                  out: seq<MathDeco>, ranges: seq<DocRange>, ghost allDecos: seq<MathDeco>, ghost allRanges: seq<DocRange>,
                  isInCodeRange: RangeChecker)
    returns (blockStart': Option<nat>, blockLines': seq<string>, out': seq<MathDeco>, ranges': seq<DocRange>, ghost open': Option<nat>)
    requires 1 <= n <= LineCount(doc)
    requires isInCodeRange.Valid() && SortedByFrom(isInCodeRange.ranges)
    requires isInCodeRange.asked ==> 1 < n && isInCodeRange.highest <= LineFrom(doc, n - 1)
    requires fence == FenceFlags(doc, isInCodeRange.ranges) && text == LineTexts(doc)
    requires PassState(doc, fence, text, n, cursor, cursorLine, blockStart, blockLines, open, out, ranges, allDecos, allRanges)
    modifies isInCodeRange
    ensures isInCodeRange.Valid() && isInCodeRange.asked && isInCodeRange.highest <= LineFrom(doc, n)
    ensures PassState(doc, fence, text, n + 1, cursor, cursorLine, blockStart', blockLines', open', out', ranges', allDecos, allRanges)
  {
    if 1 < n {
      NextLine(doc, n - 1);
    }
    var lineText := LineText(doc, n);
    var isFence := FenceLine(doc, n, lineText, isInCodeRange);
    LineTextAt(doc, n);
    blockStart', blockLines', out', ranges', open' :=
      BlockLine(doc, fence, text, n, isFence, lineText, cursor, cursorLine, blockStart, blockLines, open,
                out, ranges, allDecos, allRanges);
  }

  /** The state of the block pass before line `n`: the block opened on line `open` (if
    * any) starts at `blockStart`, and what is still to be emitted from line `n` on
    * completes the decorations and ranges pushed so far. */
  ghost predicate PassState(doc: string, fence: seq<bool>, text: seq<string>, n: nat, cursor: DocRange, cursorLine: int,
                            blockStart: Option<nat>, blockLines: seq<string>, open: Option<nat>,
                            out: seq<MathDeco>, ranges: seq<DocRange>, allDecos: seq<MathDeco>, allRanges: seq<DocRange>)
  {
    |fence| == |text| == LineCount(doc) && 1 <= n <= LineCount(doc) + 1
    && (open.Some? ==> 1 <= open.value < n)
    && blockStart == (if open.Some? then Some(LineFrom(doc, open.value)) else None)
    && out + BlockDecos(doc, BlocksFrom(fence, text, n, open, blockLines), cursor, cursorLine) == allDecos
    && ranges + BlockRanges(doc, BlocksFrom(fence, text, n, open, blockLines)) == allRanges
  }

  /** The body of the block pass for line `n`: a fence opens a block when none is open and
    * closes the open one otherwise, emitting its widget unless the cursor is in it; any
    * other line inside an open block is collected. What is still to be emitted from line
    * `n + 1` on completes the output as before. */
  method BlockLine(doc: string, ghost fence: seq<bool>, ghost text: seq<string>, n: nat, isFence: bool, lineText: string,
                   cursor: DocRange, cursorLine: int, blockStart: Option<nat>, blockLines: seq<string>, ghost open: Option<nat>,
                   out: seq<MathDeco>, ranges: seq<DocRange>, ghost allDecos: seq<MathDeco>, ghost allRanges: seq<DocRange>)
    returns (blockStart': Option<nat>, blockLines': seq<string>, out': seq<MathDeco>, ranges': seq<DocRange>, ghost open': Option<nat>)
    requires n <= LineCount(doc)
    requires PassState(doc, fence, text, n, cursor, cursorLine, blockStart, blockLines, open, out, ranges, allDecos, allRanges)
    requires isFence == fence[n - 1] && lineText == text[n - 1]
    ensures PassState(doc, fence, text, n + 1, cursor, cursorLine, blockStart', blockLines', open', out', ranges', allDecos, allRanges)
  {
    blockStart', blockLines', out', ranges', open' := blockStart, blockLines, out, ranges, open;
    if blockStart.None? {
      if isFence {
        blockStart', blockLines', open' := Some(LineFrom(doc, n)), [], Some(n);
        assert BlocksFrom(fence, text, n, open, blockLines) == BlocksFrom(fence, text, n + 1, open', []);
      } else {
        assert BlocksFrom(fence, text, n, open, blockLines) == BlocksFrom(fence, text, n + 1, open, blockLines);
      }
    } else if isFence {
      var matchFrom := blockStart.value;
      var matchTo := LineTo(doc, n);
      var isActive := IsSelectionInRange(cursor, matchFrom, matchTo) || IsCursorOnRangeLine(doc, cursorLine, matchFrom, matchTo);
      var widget: seq<MathDeco> := [];
      if !isActive {
        widget := [BlockWidget(Join(blockLines, '\n'), matchFrom, matchTo)];
      }
      CloseStep(doc, fence, text, n, open.value, blockLines, cursor, cursorLine, widget, out, allDecos, ranges, allRanges);
      ranges' := ranges + [DocRange(matchFrom, matchTo)];
      out' := out + widget;
      blockStart', open' := None, None;
    } else {
      blockLines' := blockLines + [lineText];
      assert BlocksFrom(fence, text, n, open, blockLines) == BlocksFrom(fence, text, n + 1, open, blockLines');
    }
  }

  /** The fence test of the block pass for line `n`, whose text is `lineText`: the code
    * range checker is asked for the line's start, which is past every position asked
    * before. */
  method FenceLine(doc: string, n: nat, lineText: string, isInCodeRange: RangeChecker) returns (isFence: bool)
    requires 1 <= n <= LineCount(doc) && lineText == LineText(doc, n)
    requires isInCodeRange.Valid() && SortedByFrom(isInCodeRange.ranges)
    requires isInCodeRange.asked ==> isInCodeRange.highest <= LineFrom(doc, n)
    modifies isInCodeRange
    ensures isInCodeRange.Valid()
    ensures isInCodeRange.asked && isInCodeRange.highest == LineFrom(doc, n)
    ensures isFence == FenceFlags(doc, isInCodeRange.ranges)[n - 1]
  {
    var lineInCode := isInCodeRange.Check(LineFrom(doc, n));
    isFence := !lineInCode && Trim(lineText) == "$$";
    FenceFlagAt(doc, isInCodeRange.ranges, n);
  }

  lemma ConcatAssoc<T>(a: seq<T>, b: seq<T>, c: seq<T>)
    ensures a + b + c == a + (b + c)
  {
  }

  /** Closing the block opened on line `open` at fence line `n`: its widget (absent while
    * the cursor is in it) and its range come ahead of those of the blocks that follow. */
  lemma CloseStep(doc: string, fence: seq<bool>, text: seq<string>, n: nat, open: nat, lines: seq<string>, sel: DocRange, cursorLine: int,
                  widget: seq<MathDeco>, out: seq<MathDeco>, allDecos: seq<MathDeco>, ranges: seq<DocRange>, allRanges: seq<DocRange>)
    requires |fence| == |text| == LineCount(doc) && 1 <= open < n <= LineCount(doc) && fence[n - 1]
    requires var from := LineFrom(doc, open); var to := LineTo(doc, n);
      widget == if Active(doc, sel, cursorLine, from, to) then [] else [BlockWidget(Join(lines, '\n'), from, to)]
    requires out + BlockDecos(doc, BlocksFrom(fence, text, n, Some(open), lines), sel, cursorLine) == allDecos
    requires ranges + BlockRanges(doc, BlocksFrom(fence, text, n, Some(open), lines)) == allRanges
    ensures out + widget + BlockDecos(doc, BlocksFrom(fence, text, n + 1, None, lines), sel, cursorLine) == allDecos
    ensures ranges + [DocRange(LineFrom(doc, open), LineTo(doc, n))] + BlockRanges(doc, BlocksFrom(fence, text, n + 1, None, lines)) == allRanges
  {
    var b := MathBlock(open, n, lines);
    var rest := BlocksFrom(fence, text, n + 1, None, lines);
    assert BlocksFrom(fence, text, n, Some(open), lines) == [b] + rest;
    assert ([b] + rest)[1..] == rest;
    ConcatAssoc(out, widget, BlockDecos(doc, rest, sel, cursorLine));
    ConcatAssoc(ranges, [BlockRange(doc, b)], BlockRanges(doc, rest));
  }

  /** One match of the inline pass: its widget unless an end lies in an excluded range or
    * the cursor is on it. The ends are asked in increasing order. */
  method DecideInline(doc: string, content: string, matchFrom: nat, matchTo: nat, cursor: DocRange, cursorLine: int,
                      isInExcludedRange: RangeChecker)
    returns (d: seq<MathDeco>)
    requires matchFrom < matchTo <= |doc|
    requires isInExcludedRange.Valid() && SortedByFrom(isInExcludedRange.ranges)
    requires isInExcludedRange.asked ==> isInExcludedRange.highest <= matchFrom
    modifies isInExcludedRange
    ensures isInExcludedRange.Valid() && isInExcludedRange.highest <= matchTo - 1
    ensures d == InlineDeco(doc, content, matchFrom, matchTo, isInExcludedRange.ranges, cursor, cursorLine)
  {
    var a := isInExcludedRange.Check(matchFrom);
    if a {
      return [];
    }
    var b := isInExcludedRange.Check(matchTo - 1);
    if b {
      return [];
    }
    var isActive := IsSelectionInRange(cursor, matchFrom, matchTo) || IsCursorOnRangeLine(doc, cursorLine, matchFrom, matchTo);
    if isActive {
      return [];
    }
    d := [InlineWidget(content, matchFrom, matchTo)];
  }

  /** The inline matches of one line, text `text` starting at `start`, queried against the
    * checker in increasing position order. */
  method InlineMathLine(doc: string, text: string, start: nat, out0: seq<MathDeco>, cursor: DocRange, cursorLine: int,
                        isInExcludedRange: RangeChecker)
    returns (out: seq<MathDeco>)
    requires start + |text| <= |doc|
    requires isInExcludedRange.Valid() && SortedByFrom(isInExcludedRange.ranges)
    requires isInExcludedRange.asked ==> isInExcludedRange.highest < start
    modifies isInExcludedRange
    ensures isInExcludedRange.Valid()
    ensures isInExcludedRange.asked ==> isInExcludedRange.highest < start + |text|
    ensures out == out0 + InlineFrom(doc, text, start, isInExcludedRange.ranges, cursor, cursorLine, 0)
  {
    var ex := isInExcludedRange.ranges;
    var lastIndex: nat := 0;
    var m := NextMatch(text, lastIndex);
    ghost var total := out0 + InlineFrom(doc, text, start, ex, cursor, cursorLine, 0);
    out := out0;
    while m.Some?
      invariant lastIndex <= |text|
      invariant m == NextMatch(text, lastIndex)
      invariant isInExcludedRange.Valid() && isInExcludedRange.ranges == ex
      invariant isInExcludedRange.asked ==> isInExcludedRange.highest < start + lastIndex
      invariant out + InlineFrom(doc, text, start, ex, cursor, cursorLine, lastIndex) == total
      decreases |text| - lastIndex
    {
      out := InlineMatch(doc, text, start, lastIndex, m.value.0, m.value.1, out, cursor, cursorLine, isInExcludedRange);
      lastIndex := m.value.1 + 1;
      m := NextMatch(text, lastIndex);
    }
  }

  /** One iteration of the inline loop: the match found from `from` on, opening at `i` and
    * closing at `j`, is decided and its widget (if any) joins the accumulated ones. */
  method InlineMatch(doc: string, text: string, start: nat, from: nat, i: nat, j: nat, out0: seq<MathDeco>,
                     cursor: DocRange, cursorLine: int, isInExcludedRange: RangeChecker)
    returns (out: seq<MathDeco>)
    requires start + |text| <= |doc| && NextMatch(text, from) == Some((i, j))
    requires isInExcludedRange.Valid() && SortedByFrom(isInExcludedRange.ranges)
    requires isInExcludedRange.asked ==> isInExcludedRange.highest < start + from
    modifies isInExcludedRange
    ensures isInExcludedRange.Valid()
    ensures isInExcludedRange.asked ==> isInExcludedRange.highest < start + j + 1
    ensures out + InlineFrom(doc, text, start, isInExcludedRange.ranges, cursor, cursorLine, j + 1)
         == out0 + InlineFrom(doc, text, start, isInExcludedRange.ranges, cursor, cursorLine, from)
  {
    var d := DecideInline(doc, text[i + 1..j], start + i, start + j + 1, cursor, cursorLine, isInExcludedRange);
    InlineStep(doc, text, start, isInExcludedRange.ranges, cursor, cursorLine, from, i, j);
    out := out0 + d;
    ConcatAssoc(out0, d, InlineFrom(doc, text, start, isInExcludedRange.ranges, cursor, cursorLine, j + 1));
  }

  /** One step of the inline loop: the widgets from `from` on are those of the match found
    * there followed by the widgets after it. */
  lemma InlineStep(doc: string, t: string, start: nat, ex: seq<DocRange>, sel: DocRange, cursorLine: int, from: nat, i: nat, j: nat)
    requires start + |t| <= |doc| && NextMatch(t, from) == Some((i, j))
    ensures InlineFrom(doc, t, start, ex, sel, cursorLine, from)
         == InlineDeco(doc, t[i + 1..j], start + i, start + j + 1, ex, sel, cursorLine) + InlineFrom(doc, t, start, ex, sel, cursorLine, j + 1)
  {
  }

  /** The `$…$` pass of `appendMathDecorations`: line by line, with one range checker over
    * the excluded ranges (sorted by start) asked in increasing position order. */
  method InlineMathPass(doc: string, out0: seq<MathDeco>, cursor: DocRange, cursorLine: int, excludedRanges: seq<DocRange>)
    returns (out: seq<MathDeco>)
    requires SortedByFrom(excludedRanges)
    ensures out == out0 + InlineDecos(doc, excludedRanges, cursor, cursorLine)
  {
    var isInExcludedRange := new RangeChecker(excludedRanges);
    out := out0;
    for lineNo := 1 to LineCount(doc) + 1
      invariant isInExcludedRange.Valid() && isInExcludedRange.ranges == excludedRanges
      invariant isInExcludedRange.asked ==> 1 < lineNo && isInExcludedRange.highest <= LineTo(doc, lineNo - 1)
      invariant out + LinesFrom(doc, excludedRanges, cursor, cursorLine, lineNo) == out0 + InlineDecos(doc, excludedRanges, cursor, cursorLine)
    {
      out := InlineLinePass(doc, lineNo, out, cursor, cursorLine, isInExcludedRange);
    }
  }

  /** One iteration of the inline pass, on line `n`. */
  method InlineLinePass(doc: string, n: nat, out0: seq<MathDeco>, cursor: DocRange, cursorLine: int, isInExcludedRange: RangeChecker)
    returns (out: seq<MathDeco>)
    requires 1 <= n <= LineCount(doc)
    requires isInExcludedRange.Valid() && SortedByFrom(isInExcludedRange.ranges)
    requires isInExcludedRange.asked ==> 1 < n && isInExcludedRange.highest <= LineTo(doc, n - 1)
    modifies isInExcludedRange
    ensures isInExcludedRange.Valid() && (isInExcludedRange.asked ==> isInExcludedRange.highest <= LineTo(doc, n))
    ensures out + LinesFrom(doc, isInExcludedRange.ranges, cursor, cursorLine, n + 1)
         == out0 + LinesFrom(doc, isInExcludedRange.ranges, cursor, cursorLine, n)
  {
    if 1 < n {
      NextLine(doc, n - 1);
    }
    out := InlineMathLine(doc, LineText(doc, n), LineFrom(doc, n), out0, cursor, cursorLine, isInExcludedRange);
    ConcatAssoc(out0, InlineFrom(doc, LineText(doc, n), LineFrom(doc, n), isInExcludedRange.ranges, cursor, cursorLine, 0),
                LinesFrom(doc, isInExcludedRange.ranges, cursor, cursorLine, n + 1));
  }

  /** `appendMathDecorations`: the caller's decorations followed by the block widgets and the
    * inline widgets. The caller hands in its code ranges sorted by start. */
  method AppendMathDecorations(doc: string, decorations: seq<MathDeco>, cursor: DocRange, cursorLine: int, codeRanges: seq<DocRange>)
    returns (out: seq<MathDeco>)
    requires SortedByFrom(codeRanges)
    ensures out == decorations + MathDecorations(doc, cursor, cursorLine, codeRanges)
  {
    var blocks, blockMathRanges := BlockMathPass(doc, decorations, cursor, cursorLine, codeRanges);
    var excludedRanges := InlineHtml.SortRanges(codeRanges + blockMathRanges);
    out := InlineMathPass(doc, blocks, cursor, cursorLine, excludedRanges);
    ConcatAssoc(decorations, BlockDecos(doc, Blocks(doc, codeRanges), cursor, cursorLine), InlineDecos(doc, excludedRanges, cursor, cursorLine));
  }

  // ---------------------------------------------------------------------------
  // What the block pass finds

  /** The number of fence flags set among lines `n` on. */
  function FenceCount(fence: seq<bool>, n: nat): nat
    requires 1 <= n <= |fence| + 1
    decreases |fence| + 1 - n
  {
    if n > |fence| then 0 else (if fence[n - 1] then 1 else 0) + FenceCount(fence, n + 1)
  }

  lemma {:induction false} BlocksFromCount(fence: seq<bool>, text: seq<string>, n: nat, open: Option<nat>, lines: seq<string>)
    requires |text| == |fence| && 1 <= n <= |fence| + 1
    requires open.Some? ==> 1 <= open.value < n
    ensures |BlocksFrom(fence, text, n, open, lines)| == (FenceCount(fence, n) + if open.Some? then 1 else 0) / 2
    decreases |fence| + 1 - n
  {
    if n <= |fence| {
      if open.None? {
        if fence[n - 1] {
          BlocksFromCount(fence, text, n + 1, Some(n), []);
        } else {
          BlocksFromCount(fence, text, n + 1, None, lines);
        }
      } else if fence[n - 1] {
        BlocksFromCount(fence, text, n + 1, None, lines);
      } else {
        BlocksFromCount(fence, text, n + 1, open, lines + [text[n - 1]]);
      }
    }
  }

  /** Fences pair up in order, first with second, third with fourth: there are half as
    * many blocks as fence lines, and a last fence left without a partner opens nothing. */
  lemma BlockCount(doc: string, code: seq<DocRange>)
    ensures |Blocks(doc, code)| == FenceCount(FenceFlags(doc, code), 1) / 2
  {
    BlocksFromCount(FenceFlags(doc, code), LineTexts(doc), 1, None, []);
  }

  /** A block runs from a fence to the very next fence and holds the texts of the lines in
    * between. */
  predicate Delimited(fence: seq<bool>, text: seq<string>, b: MathBlock)
    requires |text| == |fence| && Within(b, |fence|)
  {
    fence[b.openLine - 1] && fence[b.closeLine - 1]
    && (forall k :: b.openLine <= k < b.closeLine - 1 ==> !fence[k])
    && b.lines == text[b.openLine..b.closeLine - 1]
  }

  /** Blocks that are each delimited, the first opening on line `lo` or later and each
    * later one opening after the previous one closed. */
  predicate Paired(fence: seq<bool>, text: seq<string>, bs: seq<MathBlock>, lo: nat)
    requires |text| == |fence| && forall k :: 0 <= k < |bs| ==> Within(bs[k], |fence|)
  {
    bs == [] || (Delimited(fence, text, bs[0]) && lo <= bs[0].openLine && Paired(fence, text, bs[1..], bs[0].closeLine + 1))
  }

  /** Paired blocks, stated index by index. */
  lemma {:induction false} PairedAll(fence: seq<bool>, text: seq<string>, bs: seq<MathBlock>, lo: nat)
    requires |text| == |fence| && forall k :: 0 <= k < |bs| ==> Within(bs[k], |fence|)
    requires Paired(fence, text, bs, lo)
    ensures forall k :: 0 <= k < |bs| ==> Delimited(fence, text, bs[k]) && lo <= bs[k].openLine
    ensures forall k, l :: 0 <= k < l < |bs| ==> bs[k].closeLine < bs[l].openLine
  {
    if bs != [] {
      PairedAll(fence, text, bs[1..], bs[0].closeLine + 1);
      assert forall k :: 1 <= k < |bs| ==> bs[k] == bs[1..][k - 1];
    }
  }

  lemma {:induction false} BlocksFromDelimited(fence: seq<bool>, text: seq<string>, n: nat, open: Option<nat>, lines: seq<string>)
    requires |text| == |fence| && 1 <= n <= |fence| + 1
    requires open.Some? ==> 1 <= open.value < n
    requires open.Some? ==> (fence[open.value - 1] && (forall k :: open.value <= k < n - 1 ==> !fence[k])
      && lines == text[open.value..n - 1])
    ensures Paired(fence, text, BlocksFrom(fence, text, n, open, lines), if open.Some? then open.value else n)
    decreases |fence| + 1 - n
  {
    if n <= |fence| {
      if open.None? {
        if fence[n - 1] {
          assert text[n..n] == [];
          BlocksFromDelimited(fence, text, n + 1, Some(n), []);
          assert BlocksFrom(fence, text, n, open, lines) == BlocksFrom(fence, text, n + 1, Some(n), []);
        } else {
          BlocksFromDelimited(fence, text, n + 1, None, lines);
          assert BlocksFrom(fence, text, n, open, lines) == BlocksFrom(fence, text, n + 1, None, lines);
        }
      } else if fence[n - 1] {
        BlocksFromDelimited(fence, text, n + 1, None, lines);
        var rest := BlocksFrom(fence, text, n + 1, None, lines);
        var b := MathBlock(open.value, n, lines);
        assert BlocksFrom(fence, text, n, open, lines) == [b] + rest;
        assert ([b] + rest)[1..] == rest;
      } else {
        assert text[open.value..n] == text[open.value..n - 1] + [text[n - 1]];
        BlocksFromDelimited(fence, text, n + 1, open, lines + [text[n - 1]]);
        assert BlocksFrom(fence, text, n, open, lines) == BlocksFrom(fence, text, n + 1, open, lines + [text[n - 1]]);
      }
    }
  }

  /** Every block opens on a fence, closes on the very next fence and collects the texts of
    * the lines in between; blocks come in document order without overlapping. */
  lemma BlocksDelimited(doc: string, code: seq<DocRange>)
    ensures var bs := Blocks(doc, code);
      forall k :: 0 <= k < |bs| ==> Delimited(FenceFlags(doc, code), LineTexts(doc), bs[k])
    ensures var bs := Blocks(doc, code);
      forall k, l :: 0 <= k < l < |bs| ==> bs[k].closeLine < bs[l].openLine
  {
    var fence, text := FenceFlags(doc, code), LineTexts(doc);
    BlocksFromDelimited(fence, text, 1, None, []);
    assert Blocks(doc, code) == BlocksFrom(fence, text, 1, None, []);
    PairedAll(fence, text, Blocks(doc, code), 1);
  }

  lemma SliceAround<T>(s: seq<T>, a: nat, e: nat, b: nat)
    requires a <= e < b <= |s|
    ensures s[a..b] == s[a..e] + [s[e]] + s[e + 1..b]
  {
  }

  lemma {:induction false} JoinSnoc(ps: seq<string>, x: string, d: char)
    requires ps != []
    ensures Join(ps + [x], d) == Join(ps, d) + [d] + x
  {
    if |ps| == 1 {
      assert (ps + [x])[1..] == [x];
    } else {
      assert (ps + [x])[1..] == ps[1..] + [x];
      JoinSnoc(ps[1..], x, d);
    }
  }

  /** The texts of lines `p` up to, not including, `q`, joined with newlines, are the
    * document text they span. */
  lemma {:induction false} JoinLines(doc: string, p: nat, q: nat)
    requires 1 <= p < q <= LineCount(doc) + 1
    ensures LineFrom(doc, p) <= LineTo(doc, q - 1)
    ensures Join(LineTexts(doc)[p - 1..q - 1], '\n') == doc[LineFrom(doc, p)..LineTo(doc, q - 1)]
    decreases q - p
  {
    if q == p + 1 {
      JoinOneLine(doc, p);
    } else {
      JoinLines(doc, p, q - 1);
      JoinNextLine(doc, p, q);
    }
  }

  lemma JoinOneLine(doc: string, p: nat)
    requires 1 <= p <= LineCount(doc)
    ensures Join(LineTexts(doc)[p - 1..p], '\n') == doc[LineFrom(doc, p)..LineTo(doc, p)]
  {
    LineTextAt(doc, p);
    assert LineTexts(doc)[p - 1..p] == [LineText(doc, p)];
  }

  lemma JoinNextLine(doc: string, p: nat, q: nat)
    requires 1 <= p < q - 1 && q <= LineCount(doc) + 1
    requires LineFrom(doc, p) <= LineTo(doc, q - 2)
    requires Join(LineTexts(doc)[p - 1..q - 2], '\n') == doc[LineFrom(doc, p)..LineTo(doc, q - 2)]
    ensures LineFrom(doc, p) <= LineTo(doc, q - 1)
    ensures Join(LineTexts(doc)[p - 1..q - 1], '\n') == doc[LineFrom(doc, p)..LineTo(doc, q - 1)]
  {
    var texts := LineTexts(doc);
    var a, e, b := LineFrom(doc, p), LineTo(doc, q - 2), LineTo(doc, q - 1);
    NextLine(doc, q - 2);
    LineTextAt(doc, q - 1);
    JoinStep(doc, texts, p, q, a, e, b);
  }

  lemma JoinStep(doc: string, texts: seq<string>, p: nat, q: nat, a: nat, e: nat, b: nat)
    requires 1 <= p < q - 1 && q - 1 <= |texts|
    requires a <= e < b <= |doc| && doc[e] == '\n'
    requires Join(texts[p - 1..q - 2], '\n') == doc[a..e] && texts[q - 2] == doc[e + 1..b]
    ensures Join(texts[p - 1..q - 1], '\n') == doc[a..b]
  {
    assert texts[p - 1..q - 1] == texts[p - 1..q - 2] + [texts[q - 2]];
    JoinNewline(doc, texts[p - 1..q - 2], texts[q - 2], a, e, b);
  }

  /** Joining one more piece that follows a newline of `s` extends the joined slice. */
  lemma JoinNewline(s: string, parts: seq<string>, x: string, a: nat, e: nat, b: nat)
    requires parts != [] && a <= e < b <= |s| && s[e] == '\n'
    requires Join(parts, '\n') == s[a..e] && x == s[e + 1..b]
    ensures Join(parts + [x], '\n') == s[a..b]
  {
    JoinSnoc(parts, x, '\n');
    SliceAround(s, a, e, b);
  }

  /** A block's widget shows the document text strictly between its two fence lines: nothing
    * for adjacent fences, otherwise from after the opening line's newline to before the
    * closing line's start. */
  lemma BlockContent(doc: string, b: MathBlock)
    requires Within(b, LineCount(doc)) && b.lines == LineTexts(doc)[b.openLine..b.closeLine - 1]
    ensures b.closeLine > b.openLine + 1 ==> LineTo(doc, b.openLine) + 1 <= LineFrom(doc, b.closeLine) - 1
    ensures Join(b.lines, '\n') == if b.closeLine == b.openLine + 1 then ""
      else doc[LineTo(doc, b.openLine) + 1..LineFrom(doc, b.closeLine) - 1]
  {
    if b.closeLine > b.openLine + 1 {
      JoinBetween(doc, b.openLine, b.closeLine);
    }
  }

  /** The lines strictly between lines `p` and `q`, joined with newlines, are the text
    * from after the newline ending line `p` to before the newline starting line `q`. */
  lemma JoinBetween(doc: string, p: nat, q: nat)
    requires 1 <= p && p + 1 < q <= LineCount(doc)
    ensures LineTo(doc, p) + 1 <= LineFrom(doc, q) - 1
    ensures Join(LineTexts(doc)[p..q - 1], '\n') == doc[LineTo(doc, p) + 1..LineFrom(doc, q) - 1]
  {
    NextLine(doc, p);
    NextLine(doc, q - 1);
    var texts := LineTexts(doc);
    var a, e := LineFrom(doc, p + 1), LineTo(doc, q - 1);
    JoinLines(doc, p + 1, q);
    assert Join(texts[p..q - 1], '\n') == doc[a..e];
  }
}
