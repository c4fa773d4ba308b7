/**
 * Arrow-key and select-all navigation around fenced code blocks. Each `FencedCode` node of
 * the syntax tree is summarised as a block record (its fence lines, the lines next to it,
 * its first and last code lines); the arrow and select-all resolvers then look for the first
 * block the cursor relates to. The syntax tree itself is replaced by the list of its
 * `FencedCode` nodes, in document order, as plain records.
 */
module CodeBlockNav {
  import opened Wrappers
  import opened Strings
  import opened TextDoc

  /** A `FencedCode` node `[from, to)` and the range of its `CodeText` child, if any. */
  datatype CodeNode = CodeNode(from: nat, to: nat, codeText: Option<(nat, nat)>)

  /** The node lies in the document and its code text, a non-empty syntax node, lies in it. */
  predicate NodeValid(doc: string, n: CodeNode) {
    n.from <= n.to <= |doc|
    && (n.codeText.Some? ==> n.from <= n.codeText.value.0 < n.codeText.value.1 <= n.to)
  }

  /** `FencedCodeNavigationBlock`. Line numbers count from 1. */
  datatype NavBlock = NavBlock(
    blockId: string,
    codeText: Option<(nat, nat)>,
    openingFenceLine: nat,
    closingFenceLine: nat,
    lineAbove: Option<nat>,
    lineAboveFrom: Option<nat>,
    lineBelow: Option<nat>,
    lineBelowFrom: Option<nat>,
    firstCodeLine: Option<nat>,
    firstCodeLineFrom: Option<nat>,
    firstCodeLineEntryPos: Option<nat>,
    lastCodeLine: Option<nat>,
    lastCodeLineFrom: Option<nat>)

  datatype Direction = Up | Down

  datatype Action =
    | OpenLanguageEditor(blockId: string, lineAboveFrom: Option<nat>, firstCodeLineEntryPos: Option<nat>)
    | MoveCursor(targetPos: nat)

  /** `getFencedCodeBlockId`: the node's range written as `"from:to"`. */
  function BlockId(from: nat, to: nat): (id: string)
    ensures id == NatToString(from) + ":" + NatToString(to)
  {
    NatToString(from) + [':'] + NatToString(to)
  }

  /** Index of the first `c` in `s`, or `|s|` when there is none. */
  function IndexOfChar(s: string, c: char): nat {
    if s == [] then 0 else if s[0] == c then 0 else 1 + IndexOfChar(s[1..], c)
  }

  /** The first `c` of `x + [c] + rest` is the one after `x` when `x` holds none. */
  lemma {:induction false} IndexOfCharAfter(x: string, c: char, rest: string)
    requires c !in x
    ensures IndexOfChar(x + [c] + rest, c) == |x|
  {
    if x != [] {
      assert (x + [c] + rest)[1..] == x[1..] + [c] + rest;
      IndexOfCharAfter(x[1..], c, rest);
    }
  }

  /** Different ranges get different ids: the digits hold no ':', so the id splits back at
    * its first ':' into the two numbers. */
  lemma BlockIdInjective(a: nat, b: nat, c: nat, d: nat)
    requires BlockId(a, b) == BlockId(c, d)
    ensures a == c && b == d
  {
    var s := BlockId(a, b);
    var x, y := NatToString(a), NatToString(c);
    IndexOfCharAfter(x, ':', NatToString(b));
    IndexOfCharAfter(y, ':', NatToString(d));
    assert s[..|x|] == x && s[..|y|] == y;
    assert NatToString(b) == s[|x| + 1..] == NatToString(d);
    NatToStringInjective(a, c);
    NatToStringInjective(b, d);
  }

  /** `state.doc.lineAt(pos).number`, with the fact that it names a line of the document. */
  function LineNumber(doc: string, pos: nat): (l: nat)
    requires pos <= |doc|
    ensures 1 <= l <= LineCount(doc) && LineFrom(doc, l) <= pos <= LineTo(doc, l)
  {
    LineBounds(doc, pos);
    LineAt(doc, pos)
  }

  /** The line holding the last character of `[from, to)`: `lineAt(max(from, to - 1))`. */
  function LastLineOf(doc: string, from: nat, to: nat): (l: nat)
    requires from <= to <= |doc|
    ensures 1 <= l <= LineCount(doc)
  {
    LineNumber(doc, if from < to then to - 1 else from)
  }

  /** The block record of one `FencedCode` node. */
  function BlockOf(doc: string, n: CodeNode): NavBlock
    requires NodeValid(doc, n)
  {
    var opening := LineNumber(doc, n.from);
    var closing := LastLineOf(doc, n.from, n.to);
    var above: Option<nat> := if opening > 1 then Some(opening - 1) else None;
    var below: Option<nat> := if closing < LineCount(doc) then Some(closing + 1) else None;
    var first: Option<nat> := if n.codeText.Some? then Some(LineNumber(doc, n.codeText.value.0)) else None;
    var last: Option<nat> :=
      if n.codeText.Some? then Some(LastLineOf(doc, n.codeText.value.0, n.codeText.value.1)) else None;
    NavBlock(
      BlockId(n.from, n.to),
      n.codeText,
      opening,
      closing,
      above,
      if above.Some? then Some(LineFrom(doc, above.value)) else None,
      below,
      if below.Some? then Some(LineFrom(doc, below.value)) else None,
      first,
      if first.Some? then Some(LineFrom(doc, first.value)) else None,
      if first.Some? then Some(Min(LineFrom(doc, first.value) + 1, LineTo(doc, first.value))) else None,
      last,
      if last.Some? then Some(LineFrom(doc, last.value)) else None)
  }

  function Min(a: nat, b: nat): nat {
    if a <= b then a else b
  }

  /** A line starts on itself. */
  lemma LineFromOnLine(doc: string, l: nat)
    requires 1 <= l <= LineCount(doc)
    ensures LineAt(doc, LineFrom(doc, l)) == l
  {
    LineAtIff(doc, LineFrom(doc, l), l);
  }

  /** The block's lines are in document order: the opening fence, the code lines, the closing
    * fence. The lines above and below exist exactly away from the document's edges, and
    * their recorded positions start those lines. */
  lemma BlockLines(doc: string, n: CodeNode)
    requires NodeValid(doc, n)
    ensures var b := BlockOf(doc, n);
      && b.openingFenceLine <= b.closingFenceLine
      && (b.lineAbove.None? <==> b.openingFenceLine == 1)
      && (b.lineBelow.None? <==> b.closingFenceLine == LineCount(doc))
      && (b.lineAboveFrom.Some? ==> LineAt(doc, b.lineAboveFrom.value) == b.openingFenceLine - 1)
      && (b.lineBelowFrom.Some? ==> LineAt(doc, b.lineBelowFrom.value) == b.closingFenceLine + 1)
  {
    LineAtMonotone(doc, n.from, if n.from < n.to then n.to - 1 else n.from);
    BlockLineAbove(doc, n);
    BlockLineBelow(doc, n);
  }

  /** The line above the block exists unless the opening fence is the first line. */
  lemma BlockLineAbove(doc: string, n: CodeNode)
    requires NodeValid(doc, n)
    ensures var b := BlockOf(doc, n);
      && (b.lineAbove.None? <==> b.openingFenceLine == 1)
      && (b.lineAboveFrom.Some? ==> LineAt(doc, b.lineAboveFrom.value) == b.openingFenceLine - 1)
  {
    var b := BlockOf(doc, n);
    if b.lineAbove.Some? {
      LineFromOnLine(doc, b.openingFenceLine - 1);
    }
  }

  /** The line below the block exists unless the closing fence is the last line. */
  lemma BlockLineBelow(doc: string, n: CodeNode)
    requires NodeValid(doc, n)
    ensures var b := BlockOf(doc, n);
      && (b.lineBelow.None? <==> b.closingFenceLine == LineCount(doc))
      && (b.lineBelowFrom.Some? ==> LineAt(doc, b.lineBelowFrom.value) == b.closingFenceLine + 1)
  {
    var b := BlockOf(doc, n);
    if b.lineBelow.Some? {
      LineFromOnLine(doc, b.closingFenceLine + 1);
    }
  }

  /** Without code text the block has no code lines and no entry position. */
  lemma BlockWithoutCode(doc: string, n: CodeNode)
    requires NodeValid(doc, n) && n.codeText.None?
    ensures var b := BlockOf(doc, n);
      b.firstCodeLine.None? && b.lastCodeLine.None? && b.firstCodeLineEntryPos.None? && b.lastCodeLineFrom.None?
  {
  }

  /** With code text, the first and last code lines lie between the fences, in order. */
  lemma BlockCodeOrder(doc: string, n: CodeNode)
    requires NodeValid(doc, n) && n.codeText.Some?
    ensures var b := BlockOf(doc, n);
      && b.firstCodeLine.Some? && b.lastCodeLine.Some?
      && b.openingFenceLine <= b.firstCodeLine.value <= b.lastCodeLine.value <= b.closingFenceLine
  {
    var (a, e) := n.codeText.value;
    LineAtMonotone(doc, n.from, a);
    LineAtMonotone(doc, a, e - 1);
    LineAtMonotone(doc, e - 1, n.to - 1);
  }

  /** With code text, the recorded position of the last code line starts it, and the entry
    * position lies on the first code line, one character in unless that line is empty. */
  lemma BlockCodeTargets(doc: string, n: CodeNode)
    requires NodeValid(doc, n) && n.codeText.Some?
    ensures var b := BlockOf(doc, n);
      && b.firstCodeLine.Some? && b.lastCodeLine.Some? && b.firstCodeLineEntryPos.Some? && b.lastCodeLineFrom.Some?
      && LineAt(doc, b.lastCodeLineFrom.value) == b.lastCodeLine.value
      && LineAt(doc, b.firstCodeLineEntryPos.value) == b.firstCodeLine.value
      && (var start := LineFrom(doc, b.firstCodeLine.value);
          b.firstCodeLineEntryPos.value == if start < LineTo(doc, b.firstCodeLine.value) then start + 1 else start)
  {
    var b := BlockOf(doc, n);
    LineFromOnLine(doc, b.lastCodeLine.value);
    LineAtIff(doc, b.firstCodeLineEntryPos.value, b.firstCodeLine.value);
  }

  /** What one block answers to an arrow key pressed on line `line` (the body of the loop of
    * `resolveCodeBlockArrowNavigation`); `None` lets the search go on to the next block. */
  function MatchBlock(b: NavBlock, line: nat, dir: Direction): Option<Action> {
    match dir
    case Up =>
      if b.firstCodeLine == Some(line) then
        Some(OpenLanguageEditor(b.blockId, b.lineAboveFrom, b.firstCodeLineEntryPos))
      else if b.lineBelow == Some(line) && b.lastCodeLineFrom.Some? then
        Some(MoveCursor(b.lastCodeLineFrom.value))
      else None
    case Down =>
      if b.lineAbove == Some(line) && b.firstCodeLineEntryPos.Some? then
        Some(OpenLanguageEditor(b.blockId, b.lineAboveFrom, b.firstCodeLineEntryPos))
      else if b.lastCodeLine == Some(line) && b.lineBelowFrom.Some? then
        Some(MoveCursor(b.lineBelowFrom.value))
      else None
  }

  /** 'up' on the first code line opens the language editor of the block, carrying the start
    * of the line above and the entry position. */
  lemma UpFromFirstCodeLine(doc: string, n: CodeNode, line: nat)
    requires NodeValid(doc, n) && n.codeText.Some?
    requires line == LineAt(doc, n.codeText.value.0)
    ensures var b := BlockOf(doc, n);
      MatchBlock(b, line, Up) == Some(OpenLanguageEditor(BlockId(n.from, n.to), b.lineAboveFrom, b.firstCodeLineEntryPos))
  {
  }

  /** 'up' on the line just below the block moves to the start of the last code line. */
  lemma UpFromLineBelow(doc: string, n: CodeNode, line: nat)
    requires NodeValid(doc, n) && n.codeText.Some?
    requires line == LastLineOf(doc, n.from, n.to) + 1 <= LineCount(doc)
    ensures var b := BlockOf(doc, n);
      && MatchBlock(b, line, Up).Some? && MatchBlock(b, line, Up).value.MoveCursor?
      && LineAt(doc, MatchBlock(b, line, Up).value.targetPos) == b.lastCodeLine.value
  {
    BlockCodeOrder(doc, n);
    BlockCodeTargets(doc, n);
  }

  /** 'down' on the line just above the block opens its language editor. */
  lemma DownFromLineAbove(doc: string, n: CodeNode, line: nat)
    requires NodeValid(doc, n) && n.codeText.Some?
    requires 1 <= line && line + 1 == LineAt(doc, n.from)
    ensures var b := BlockOf(doc, n);
      MatchBlock(b, line, Down) == Some(OpenLanguageEditor(BlockId(n.from, n.to), b.lineAboveFrom, b.firstCodeLineEntryPos))
  {
    BlockCodeTargets(doc, n);
  }

  /** 'down' on the last code line skips the closing fence: it moves to the start of the line
    * below the block. */
  lemma DownFromLastCodeLine(doc: string, n: CodeNode, line: nat)
    requires NodeValid(doc, n) && n.codeText.Some?
    requires line == LastLineOf(doc, n.codeText.value.0, n.codeText.value.1)
    requires LastLineOf(doc, n.from, n.to) < LineCount(doc)
    ensures var b := BlockOf(doc, n);
      && MatchBlock(b, line, Down).Some? && MatchBlock(b, line, Down).value.MoveCursor?
      && LineAt(doc, MatchBlock(b, line, Down).value.targetPos) == b.closingFenceLine + 1
  {
    BlockCodeOrder(doc, n);
    BlockCodeTargets(doc, n);
    BlockLines(doc, n);
  }

  /** On any other line, and on every line for a block without code text, the block gives
    * no action. */
  lemma NoActionElsewhere(doc: string, n: CodeNode, line: nat, dir: Direction)
    requires NodeValid(doc, n)
    requires var b := BlockOf(doc, n);
      || n.codeText.None?
      || (dir == Up && Some(line) != b.firstCodeLine && Some(line) != b.lineBelow)
      || (dir == Down && Some(line) != b.lineAbove && Some(line) != b.lastCodeLine)
    ensures MatchBlock(BlockOf(doc, n), line, dir).None?
  {
    if n.codeText.Some? {
      BlockCodeTargets(doc, n);
    }
  }

  /** The loop of `resolveCodeBlockArrowNavigation` over the blocks. */
  function FirstMatch(blocks: seq<NavBlock>, line: nat, dir: Direction): Option<Action> {
    if blocks == [] then None
    else if MatchBlock(blocks[0], line, dir).Some? then MatchBlock(blocks[0], line, dir)
    else FirstMatch(blocks[1..], line, dir)
  }

  /** The blocks are tried in order and the first that answers wins. */
  lemma {:induction false} FirstMatchWins(blocks: seq<NavBlock>, line: nat, dir: Direction, k: nat)
    requires k < |blocks| && MatchBlock(blocks[k], line, dir).Some?
    requires forall j :: 0 <= j < k ==> MatchBlock(blocks[j], line, dir).None?
    ensures FirstMatch(blocks, line, dir) == MatchBlock(blocks[k], line, dir)
  {
    if k > 0 {
      FirstMatchWins(blocks[1..], line, dir, k - 1);
    }
  }

  /** No action comes out exactly when no block answers. */
  lemma {:induction false} FirstMatchNone(blocks: seq<NavBlock>, line: nat, dir: Direction)
    ensures FirstMatch(blocks, line, dir).None? <==> forall j :: 0 <= j < |blocks| ==> MatchBlock(blocks[j], line, dir).None?
  {
    if blocks != [] {
      FirstMatchNone(blocks[1..], line, dir);
      assert forall j :: 1 <= j < |blocks| ==> blocks[j] == blocks[1..][j - 1];
    }
  }

  /** `resolveCodeBlockArrowNavigation` for the selection range `[anchor, head]`. */
  function ResolveArrow(doc: string, blocks: seq<NavBlock>, anchor: nat, head: nat, dir: Direction): (r: Option<Action>)
    requires head <= |doc|
    ensures anchor != head ==> r.None?
  {
    if anchor != head then None else FirstMatch(blocks, LineAt(doc, head), dir)
  }

  /** `blocks` holds one record per node, in the nodes' order. */
  predicate BlocksOf(doc: string, nodes: seq<CodeNode>, blocks: seq<NavBlock>)
    requires forall i :: 0 <= i < |nodes| ==> NodeValid(doc, nodes[i])
  {
    |blocks| == |nodes| && forall i :: 0 <= i < |nodes| ==> blocks[i] == BlockOf(doc, nodes[i])
  }

  /** `getFencedCodeNavigationBlocks`: walks the nodes in order, pushing each block record. */
  method NavigationBlocks(doc: string, nodes: seq<CodeNode>) returns (blocks: seq<NavBlock>)
    requires forall i :: 0 <= i < |nodes| ==> NodeValid(doc, nodes[i])
    ensures BlocksOf(doc, nodes, blocks)
  {
    blocks := [];
    var i := 0;
    while i < |nodes|
      invariant i <= |nodes| && |blocks| == i
      invariant forall j :: 0 <= j < i ==> blocks[j] == BlockOf(doc, nodes[j])
    {
      blocks := blocks + [BlockOf(doc, nodes[i])];
      i := i + 1;
    }
  }

  /** `isPositionWithinCodeText` or `isCursorOnFencedCodeLine`: the head lies in the code
    * text (ends included) or on a line from the opening to the closing fence. */
  predicate SelectAllHit(doc: string, b: NavBlock, head: nat)
    requires head <= |doc|
  {
    (b.codeText.Some? && b.codeText.value.0 <= head <= b.codeText.value.1)
    || (b.openingFenceLine <= LineAt(doc, head) <= b.closingFenceLine)
  }

  /** The loop of `resolveCodeBlockSelectAllRange`: blocks that are not hit, or have no code
    * text, are skipped. */
  function FirstCodeRange(doc: string, blocks: seq<NavBlock>, head: nat): Option<(nat, nat)>
    requires head <= |doc|
  {
    if blocks == [] then None
    else if SelectAllHit(doc, blocks[0], head) && blocks[0].codeText.Some? then blocks[0].codeText
    else FirstCodeRange(doc, blocks[1..], head)
  }

  /** `resolveCodeBlockSelectAllRange`; `rangeCount` is the number of selection ranges. */
  function SelectAllRange(doc: string, blocks: seq<NavBlock>, rangeCount: nat, head: nat): (r: Option<(nat, nat)>)
    requires head <= |doc|
    ensures rangeCount > 1 ==> r.None?
  {
    if rangeCount > 1 then None else FirstCodeRange(doc, blocks, head)
  }

  /** Select-all picks the code text of the first block that is hit and has code text. */
  lemma {:induction false} SelectAllFirst(doc: string, blocks: seq<NavBlock>, head: nat, k: nat)
    requires head <= |doc| && k < |blocks|
    requires SelectAllHit(doc, blocks[k], head) && blocks[k].codeText.Some?
    requires forall j :: 0 <= j < k ==> !SelectAllHit(doc, blocks[j], head) || blocks[j].codeText.None?
    ensures SelectAllRange(doc, blocks, 1, head) == blocks[k].codeText
  {
    if k > 0 {
      SelectAllFirst(doc, blocks[1..], head, k - 1);
    }
  }

  /** Select-all finds nothing exactly when no block with code text is hit. */
  lemma {:induction false} SelectAllNone(doc: string, blocks: seq<NavBlock>, head: nat)
    requires head <= |doc|
    ensures FirstCodeRange(doc, blocks, head).None? <==>
      forall j :: 0 <= j < |blocks| ==> !SelectAllHit(doc, blocks[j], head) || blocks[j].codeText.None?
  {
    if blocks != [] {
      SelectAllNone(doc, blocks[1..], head);
      assert forall j :: 1 <= j < |blocks| ==> blocks[j] == blocks[1..][j - 1];
    }
  }
}
