/**
 * The ordered-list commands of the editor helpers: renumbering every ordered list, the
 * indentation step taken from the previous sibling, the outdent step taken from the
 * parent item, and the Tab / Shift-Tab commands that indent or outdent the item under the
 * cursor. The Markdown syntax tree is not modelled; each command receives the few facts
 * of the tree walk it performs as parameters.
 */
module OrderedLists {
  import opened Wrappers
  import opened Strings
  import opened TextDoc
  import opened EditorView
  import opened EditorUtils

  // ---------------------------------------------------------------------------------
  // Renumbering

  /** A list mark of the form `/^(\d+)([.)])$/`: one or more digits, then '.' or ')'. */
  predicate IsMarkerText(t: string) {
    |t| >= 2 && (forall i :: 0 <= i < |t| - 1 ==> IsDigit(t[i])) && (t[|t| - 1] == '.' || t[|t| - 1] == ')')
  }

  /** The marker `number` with the delimiter of the mark `t`. */
  function ExpectedMarker(number: nat, t: string): (r: string)
    requires IsMarkerText(t)
    ensures IsMarkerText(r) && r[|r| - 1] == t[|t| - 1]
    ensures r[..|r| - 1] == NatToString(number)
  {
    NatToString(number) + [t[|t| - 1]]
  }

  /** The `ListMark` ranges of one ordered list's items, in order; `None` for an item
    * without a mark. */
  type Marks = seq<Option<(nat, nat)>>

  predicate MarksWithin(doc: string, marks: Marks) {
    forall i :: 0 <= i < |marks| && marks[i].Some? ==> marks[i].value.0 <= marks[i].value.1 <= |doc|
  }

  /** The item `i` carries a numeric marker. */
  predicate Numbered(doc: string, marks: Marks, i: nat)
    requires MarksWithin(doc, marks) && i < |marks|
  {
    marks[i].Some? && IsMarkerText(doc[marks[i].value.0..marks[i].value.1])
  }

  /** Renumbering the first `n` items of one list: the changes, and how many of the items
    * carry a numeric marker (so the next one should read that count plus one). */
  function RenumberItems(doc: string, marks: Marks, n: nat): (r: (seq<Change>, nat))
    requires MarksWithin(doc, marks) && n <= |marks|
    ensures r.1 <= n && |r.0| <= r.1
  {
    if n == 0 then ([], 0)
    else
      var (prev, count) := RenumberItems(doc, marks, n - 1);
      if !Numbered(doc, marks, n - 1) then (prev, count)
      else
        var (from, to) := marks[n - 1].value;
        var text := doc[from..to];
        var expected := ExpectedMarker(count + 1, text);
        (if text == expected then prev else prev + [Change(from, to, expected)], count + 1)
  }

  /** The number item `i` should read: one more than the numbered items before it. */
  function NumberOf(doc: string, marks: Marks, i: nat): nat
    requires MarksWithin(doc, marks) && i < |marks|
  {
    RenumberItems(doc, marks, i).1 + 1
  }

  /** Item `i` already reads its number. */
  predicate ReadsNumber(doc: string, marks: Marks, i: nat)
    requires MarksWithin(doc, marks) && i < |marks| && Numbered(doc, marks, i)
  {
    var (from, to) := marks[i].value;
    doc[from..to] == ExpectedMarker(NumberOf(doc, marks, i), doc[from..to])
  }

  /** Every renumbering change rewrites the mark of a numbered item that did not read its
    * number into that number with the item's own delimiter. */
  lemma {:induction false} RenumberChangeItem(doc: string, marks: Marks, n: nat, c: nat) returns (i: nat)
    requires MarksWithin(doc, marks) && n <= |marks| && c < |RenumberItems(doc, marks, n).0|
    ensures i < n && Numbered(doc, marks, i) && !ReadsNumber(doc, marks, i)
    ensures var (from, to) := marks[i].value;
      RenumberItems(doc, marks, n).0[c] == Change(from, to, ExpectedMarker(NumberOf(doc, marks, i), doc[from..to]))
  {
    var prev := RenumberItems(doc, marks, n - 1).0;
    if c < |prev| {
      assert RenumberItems(doc, marks, n).0[c] == prev[c];
      i := RenumberChangeItem(doc, marks, n - 1, c);
    } else {
      i := n - 1;
    }
  }

  /** After the changes every numbered item reads its number: either it already did, or a
    * change rewrites its mark. */
  lemma {:induction false} RenumberCoversItem(doc: string, marks: Marks, n: nat, i: nat)
    requires MarksWithin(doc, marks) && i < n <= |marks| && Numbered(doc, marks, i)
    ensures var (from, to) := marks[i].value;
      ReadsNumber(doc, marks, i)
      || Change(from, to, ExpectedMarker(NumberOf(doc, marks, i), doc[from..to])) in RenumberItems(doc, marks, n).0
  {
    if i < n - 1 {
      RenumberCoversItem(doc, marks, n - 1, i);
    }
  }

  /** A list needs no change exactly when every numbered item already reads its number. */
  lemma RenumberIdleIff(doc: string, marks: Marks, n: nat)
    requires MarksWithin(doc, marks) && n <= |marks|
    ensures RenumberItems(doc, marks, n).0 == []
      <==> forall i :: 0 <= i < n && Numbered(doc, marks, i) ==> ReadsNumber(doc, marks, i)
  {
    if RenumberItems(doc, marks, n).0 == [] {
      forall i | 0 <= i < n && Numbered(doc, marks, i) ensures ReadsNumber(doc, marks, i) {
        RenumberCoversItem(doc, marks, n, i);
      }
    }
    if RenumberItems(doc, marks, n).0 != [] {
      var i := RenumberChangeItem(doc, marks, n, 0);
    }
  }

  /** The renumbering changes of the first `m` lists, list after list. */
  function RenumberLists(doc: string, lists: seq<Marks>, m: nat): seq<Change>
    requires (forall k :: 0 <= k < |lists| ==> MarksWithin(doc, lists[k])) && m <= |lists|
  {
    if m == 0 then []
    else RenumberLists(doc, lists, m - 1) + RenumberItems(doc, lists[m - 1], |lists[m - 1]|).0
  }

  /** Nothing changes exactly when no list needs a change. */
  lemma {:induction false} RenumberListsIdleIff(doc: string, lists: seq<Marks>, m: nat)
    requires (forall k :: 0 <= k < |lists| ==> MarksWithin(doc, lists[k])) && m <= |lists|
    ensures RenumberLists(doc, lists, m) == []
      <==> forall k :: 0 <= k < m ==> RenumberItems(doc, lists[k], |lists[k]|).0 == []
  {
    if m > 0 {
      RenumberListsIdleIff(doc, lists, m - 1);
      var prev := RenumberLists(doc, lists, m - 1);
      var last := RenumberItems(doc, lists[m - 1], |lists[m - 1]|).0;
      assert |RenumberLists(doc, lists, m)| == |prev| + |last|;
    }
  }

  /** One more item: a numbered item whose mark differs from `expectedNumber` and its
    * delimiter appends the change to that marker, and every numbered item advances the
    * count. */
  lemma RenumberItemsStep(doc: string, marks: Marks, j: nat, expectedNumber: nat)
    requires MarksWithin(doc, marks) && j < |marks| && expectedNumber == RenumberItems(doc, marks, j).1 + 1
    ensures !Numbered(doc, marks, j) ==> RenumberItems(doc, marks, j + 1) == RenumberItems(doc, marks, j)
    ensures Numbered(doc, marks, j) ==>
      var (from, to) := marks[j].value;
      var text := doc[from..to];
      var expected := NatToString(expectedNumber) + [text[|text| - 1]];
      RenumberItems(doc, marks, j + 1)
        == (if text == expected then RenumberItems(doc, marks, j).0 else RenumberItems(doc, marks, j).0 + [Change(from, to, expected)],
            expectedNumber)
  {
  }

  /** `buildOrderedListRenumberChanges(state)`. The tree walk is a parameter: `lists` holds
    * the marks of every ordered list in the order the walk enters them. */
  method BuildRenumberChanges(doc: string, lists: seq<Marks>) returns (changes: seq<Change>)
    requires forall k :: 0 <= k < |lists| ==> MarksWithin(doc, lists[k])
    ensures changes == RenumberLists(doc, lists, |lists|)
  {
    changes := [];
    var i := 0;
    while i < |lists|
      invariant i <= |lists|
      invariant changes == RenumberLists(doc, lists, i)
    {
      var listChanges := RenumberList(doc, lists[i]);
      changes := changes + listChanges;
      i := i + 1;
    }
  }

  /** The visit of one ordered list in `buildOrderedListRenumberChanges`: its items in
    * order, counting the numbered ones. */
  method RenumberList(doc: string, marks: Marks) returns (changes: seq<Change>)
    requires MarksWithin(doc, marks)
    ensures changes == RenumberItems(doc, marks, |marks|).0
  {
    changes := [];
    var expectedNumber := 1;
    var j := 0;
    while j < |marks|
      invariant j <= |marks|
      invariant changes == RenumberItems(doc, marks, j).0
      invariant expectedNumber == RenumberItems(doc, marks, j).1 + 1
    {
      changes, expectedNumber := RenumberNext(doc, marks, j, changes, expectedNumber);
      j := j + 1;
    }
  }

  /** One item of the visit: a numbered item whose mark differs from the expected marker
    * gets a change, and every numbered item advances the expected number. */
  method RenumberNext(doc: string, marks: Marks, j: nat, changes: seq<Change>, expectedNumber: nat)
    returns (next: seq<Change>, nextNumber: nat)
    requires MarksWithin(doc, marks) && j < |marks|
    requires changes == RenumberItems(doc, marks, j).0 && expectedNumber == RenumberItems(doc, marks, j).1 + 1
    ensures next == RenumberItems(doc, marks, j + 1).0 && nextNumber == RenumberItems(doc, marks, j + 1).1 + 1
  {
    RenumberItemsStep(doc, marks, j, expectedNumber);
    next, nextNumber := changes, expectedNumber;
    if marks[j].Some? {
      var (from, to) := marks[j].value;
      var markerText := doc[from..to];
      if IsMarkerText(markerText) {
        var expectedMarker := NatToString(expectedNumber) + [markerText[|markerText| - 1]];
        if markerText != expectedMarker {
          next := next + [Change(from, to, expectedMarker)];
        }
        nextNumber := expectedNumber + 1;
      }
    }
  }

  // ---------------------------------------------------------------------------------
  // Indentation steps

  /** The indentation of the ordered-list marker line holding `pos`, if it is one. */
  function MarkerIndentAt(doc: string, pos: nat): (r: Option<nat>)
    requires pos <= |doc|
  {
    match OrderedMarker(LineTextAt(doc, pos))
    case Some((indent, _)) => Some(indent)
    case None => None
  }

  predicate PositionsWithin(doc: string, nested: seq<Option<nat>>) {
    forall j :: 0 <= j < |nested| && nested[j].Some? ==> nested[j].value <= |doc|
  }

  /** The nested list `j` starts with an item indented deeper than `current`. */
  predicate DeeperAt(doc: string, nested: seq<Option<nat>>, j: nat, current: nat)
    requires PositionsWithin(doc, nested) && j < |nested|
  {
    nested[j].Some? && MarkerIndentAt(doc, nested[j].value).Some? && MarkerIndentAt(doc, nested[j].value).value > current
  }

  /** The step to the first nested list, from the `i`-th on, whose first item is indented
    * deeper than `current`. */
  function SiblingStepFrom(doc: string, nested: seq<Option<nat>>, i: nat, current: nat): Option<nat>
    requires PositionsWithin(doc, nested) && i <= |nested|
    decreases |nested| - i
  {
    if i == |nested| then None
    else if DeeperAt(doc, nested, i, current) then Some(MarkerIndentAt(doc, nested[i].value).value - current)
    else SiblingStepFrom(doc, nested, i + 1, current)
  }

  /** No step is found exactly when no nested list from the `i`-th on starts deeper. */
  lemma {:induction false} SiblingStepNone(doc: string, nested: seq<Option<nat>>, i: nat, current: nat)
    requires PositionsWithin(doc, nested) && i <= |nested|
    ensures SiblingStepFrom(doc, nested, i, current).None?
      <==> forall j :: i <= j < |nested| ==> !DeeperAt(doc, nested, j, current)
    decreases |nested| - i
  {
    if i < |nested| {
      SiblingStepNone(doc, nested, i + 1, current);
    }
  }

  /** A step that is found is positive and leads to the first nested list that starts
    * deeper than `current`. */
  lemma {:induction false} SiblingStepFirst(doc: string, nested: seq<Option<nat>>, i: nat, current: nat) returns (j: nat)
    requires PositionsWithin(doc, nested) && i <= |nested| && SiblingStepFrom(doc, nested, i, current).Some?
    ensures i <= j < |nested| && DeeperAt(doc, nested, j, current)
    ensures forall k :: i <= k < j ==> !DeeperAt(doc, nested, k, current)
    ensures SiblingStepFrom(doc, nested, i, current).value == MarkerIndentAt(doc, nested[j].value).value - current > 0
    decreases |nested| - i
  {
    if DeeperAt(doc, nested, i, current) {
      j := i;
    } else {
      j := SiblingStepFirst(doc, nested, i + 1, current);
      forall k | i <= k < j ensures !DeeperAt(doc, nested, k, current) {
        if k > i {
          assert i + 1 <= k < j;
        }
      }
    }
  }

  /** `getIndentStepFromPreviousSibling(state, pos, currentIndentLength)`. The tree walk is a
    * parameter: `previousNested` is `None` when the item has no previous sibling, and
    * otherwise holds, for each ordered list nested in the previous sibling, the start of
    * its first item (`None` for a list without items). */
  method IndentStepFromPreviousSibling(doc: string, previousNested: Option<seq<Option<nat>>>, current: nat)
    returns (step: Option<nat>)
    requires previousNested.Some? ==> PositionsWithin(doc, previousNested.value)
    ensures step == if previousNested.None? then None else SiblingStepFrom(doc, previousNested.value, 0, current)
  {
    if previousNested.None? {
      return None;
    }
    var nested := previousNested.value;
    var i := 0;
    while i < |nested|
      invariant i <= |nested|
      invariant SiblingStepFrom(doc, nested, i, current) == SiblingStepFrom(doc, nested, 0, current)
    {
      if nested[i].Some? {
        var nestedIndent := MarkerIndentAt(doc, nested[i].value);
        if nestedIndent.Some? && nestedIndent.value > current {
          return Some(nestedIndent.value - current);
        }
      }
      i := i + 1;
    }
    return None;
  }

  /** The width of `nestedListIndent`, four spaces. */
  const NestedListIndent: nat := 4

  /** `getOutdentStep(state, pos, currentIndentLength)`. The tree walk is a parameter:
    * `parentItem` is the start of the list item that holds the item's list, or `None` when
    * the list is not nested in an item. The step returns the item to its parent's
    * indentation; when it is not deeper than its parent, at most one nesting level. */
  function OutdentStep(doc: string, parentItem: Option<nat>, current: nat): (r: nat)
    requires parentItem.Some? ==> parentItem.value <= |doc|
  {
    if parentItem.None? then 0
    else
      var parentLine := LineTextAt(doc, parentItem.value);
      var parentIndent := match OrderedMarker(parentLine)
        case Some((indent, _)) => indent
        case None => LeadingSpaceLen(parentLine);
      if current > parentIndent then current - parentIndent
      else if NestedListIndent < current then NestedListIndent else current
  }

  /** The step never exceeds the item's own indentation; it is positive for an indented
    * nested item, and it lands the item on its parent's indentation when the item is
    * deeper than its parent. */
  lemma OutdentStepBounds(doc: string, parentItem: Option<nat>, current: nat)
    requires parentItem.Some? ==> parentItem.value <= |doc|
    ensures OutdentStep(doc, parentItem, current) <= current
    ensures OutdentStep(doc, parentItem, current) == 0 <==> parentItem.None? || current == 0
    ensures parentItem.Some? ==>
      var parentIndent := LeadingSpaceLen(LineTextAt(doc, parentItem.value));
      current > parentIndent ==> current - OutdentStep(doc, parentItem, current) == parentIndent
  {
  }

  // ---------------------------------------------------------------------------------
  // Commands

  /** The indent size: the sibling step when there is one, else the marker width. */
  function IndentSize(siblingStep: Option<nat>, item: ItemContext): nat {
    if siblingStep.Some? then siblingStep.value
    else if 1 < item.markerWidth then item.markerWidth else 1
  }

  /** The changes `indentOrderedListItem` dispatches, or `None` when the cursor is not in an
    * ordered-list item; they form a valid change set. */
  function IndentPlan(doc: string, node: Option<(nat, nat)>, previousNested: Option<seq<Option<nat>>>)
    : (r: Option<seq<Change>>)
    requires node.Some? ==> node.value.0 <= node.value.1 <= |doc|
    requires previousNested.Some? ==> PositionsWithin(doc, previousNested.value)
    ensures r.Some? ==> ChangesValid(r.value, |doc|)
  {
    match ItemContextOf(doc, node)
    case None => None
    case Some(ctx) =>
      var step := if previousNested.None? then None else SiblingStepFrom(doc, previousNested.value, 0, ctx.indentLength);
      var spans := ItemSpans(doc, ctx);
      IndentChangesShape(doc, spans, IndentSize(step, ctx));
      Some(IndentChanges(spans, IndentSize(step, ctx)))
  }

  /** Inside an ordered-list item the plan indents every line of the item, one change per
    * line in order: exactly the indent size in spaces, inserted at the line's start. */
  lemma IndentPlanLines(doc: string, node: Option<(nat, nat)>, previousNested: Option<seq<Option<nat>>>)
    requires node.Some? ==> node.value.0 <= node.value.1 <= |doc|
    requires previousNested.Some? ==> PositionsWithin(doc, previousNested.value)
    ensures IndentPlan(doc, node, previousNested).Some? <==> ItemContextOf(doc, node).Some?
    ensures IndentPlan(doc, node, previousNested).Some? ==>
      var ctx := ItemContextOf(doc, node).value;
      var step := if previousNested.None? then None else SiblingStepFrom(doc, previousNested.value, 0, ctx.indentLength);
      var spans := ItemSpans(doc, ctx);
      var changes := IndentPlan(doc, node, previousNested).value;
      |changes| == |spans|
      && forall k :: 0 <= k < |spans| ==>
        changes[k].from == changes[k].to == spans[k].0 && changes[k].insert == Repeat(' ', IndentSize(step, ctx))
  {
  }

  /** `indentOrderedListItem(view)`: with an empty main selection inside an ordered-list
    * item, the item's lines move right (see `IndentPlan`) and the command reports that it
    * handled the key; otherwise nothing changes and it does not. `node` and
    * `previousNested` stand for the tree walks (see `ItemContextOf` and
    * `IndentStepFromPreviousSibling`). */
  method IndentOrderedListItem(view: View, node: Option<(nat, nat)>, previousNested: Option<seq<Option<nat>>>)
    returns (handled: bool)
    requires view.Valid()
    requires node.Some? ==> node.value.0 <= node.value.1 <= |view.doc|
    requires previousNested.Some? ==> PositionsWithin(view.doc, previousNested.value)
    modifies view
    ensures view.Valid()
    ensures handled <==> old(view.sel.Main()).IsEmpty() && IndentPlan(old(view.doc), node, previousNested).Some?
    ensures !handled ==> view.doc == old(view.doc) && view.sel == old(view.sel)
    ensures handled ==>
      var changes := IndentPlan(old(view.doc), node, previousNested).value;
      view.doc == ApplyChanges(old(view.doc), changes) && view.sel == MapSelection(old(view.sel), changes)
  {
    var selection := view.sel.Main();
    if !selection.IsEmpty() {
      return false;
    }
    var doc := view.doc;
    var itemContext := ItemContextOf(doc, node);
    if itemContext.None? {
      return false;
    }
    var ctx := itemContext.value;
    var siblingStep := IndentStepFromPreviousSibling(doc, previousNested, ctx.indentLength);
    var indentSize := IndentSize(siblingStep, ctx);
    var changes := BuildIndentChanges(doc, ctx, indentSize);
    assert changes == IndentPlan(doc, node, previousNested).value;
    view.Dispatch(changes, None);
    return true;
  }

  /** The changes `outdentOrderedListItem` dispatches, or `None` when it declines; they
    * form a valid change set that is never empty. */
  function OutdentPlan(doc: string, node: Option<(nat, nat)>, parentItem: Option<nat>): (r: Option<seq<Change>>)
    requires node.Some? ==> node.value.0 <= node.value.1 <= |doc|
    requires parentItem.Some? ==> parentItem.value <= |doc|
    ensures r.Some? ==> ChangesValid(r.value, |doc|) && r.value != []
  {
    match ItemContextOf(doc, node)
    case None => None
    case Some(ctx) =>
      var size := OutdentStep(doc, parentItem, ctx.indentLength);
      if ctx.indentLength == 0 || size == 0 then None
      else
        var spans := ItemSpans(doc, ctx);
        var changes := OutdentChanges(doc, spans, size, |spans|);
        OutdentChangesValid(doc, spans, size, |spans|);
        if changes == [] then None else Some(changes)
  }

  /** The outdent plan declines exactly outside an ordered-list item, for an item without
    * indentation and for a zero step: an indented item's first line always loses some
    * whitespace. Each change removes leading whitespace of one line of the item. */
  lemma OutdentPlanIff(doc: string, node: Option<(nat, nat)>, parentItem: Option<nat>)
    requires node.Some? ==> node.value.0 <= node.value.1 <= |doc|
    requires parentItem.Some? ==> parentItem.value <= |doc|
    ensures OutdentPlan(doc, node, parentItem).Some? <==>
      && ItemContextOf(doc, node).Some?
      && ItemContextOf(doc, node).value.indentLength > 0
      && OutdentStep(doc, parentItem, ItemContextOf(doc, node).value.indentLength) > 0
  {
    match ItemContextOf(doc, node)
    case None =>
    case Some(ctx) =>
      var size := OutdentStep(doc, parentItem, ctx.indentLength);
      if ctx.indentLength > 0 && size > 0 {
        var spans := ItemSpans(doc, ctx);
        OutdentFirstLine(doc, ctx, spans, size);
        OutdentCoversLine(doc, spans, size, |spans|, 0);
      }
  }

  /** The first line of an item with indentation has leading whitespace, so a positive
    * step removes some of it. */
  lemma OutdentFirstLine(doc: string, ctx: ItemContext, spans: seq<(nat, nat)>, size: nat)
    requires ctx.from <= ctx.to <= |doc| && spans == ItemSpans(doc, ctx)
    requires ctx.indentLength == LeadingSpaceLen(LineTextAt(doc, ctx.from)) > 0 && size > 0
    ensures OutdentLineChange(spans[0].0, doc[spans[0].0..spans[0].1], size).Some?
  {
  }

  /** `outdentOrderedListItem(view)`: with an empty main selection inside an indented
    * ordered-list item whose outdent step is positive, the item's lines move left (see
    * `OutdentPlan`) and the command reports that it handled the key; otherwise nothing
    * changes and it does not. `node` and `parentItem` stand for the tree walks (see
    * `ItemContextOf` and `OutdentStep`). */
  method OutdentOrderedListItem(view: View, node: Option<(nat, nat)>, parentItem: Option<nat>)
    returns (handled: bool)
    requires view.Valid()
    requires node.Some? ==> node.value.0 <= node.value.1 <= |view.doc|
    requires parentItem.Some? ==> parentItem.value <= |view.doc|
    modifies view
    ensures view.Valid()
    ensures handled <==> old(view.sel.Main()).IsEmpty() && OutdentPlan(old(view.doc), node, parentItem).Some?
    ensures !handled ==> view.doc == old(view.doc) && view.sel == old(view.sel)
    ensures handled ==>
      var changes := OutdentPlan(old(view.doc), node, parentItem).value;
      view.doc == ApplyChanges(old(view.doc), changes) && view.sel == MapSelection(old(view.sel), changes)
  {
    var selection := view.sel.Main();
    if !selection.IsEmpty() {
      return false;
    }
    var doc := view.doc;
    var itemContext := ItemContextOf(doc, node);
    if itemContext.None? {
      return false;
    }
    var ctx := itemContext.value;
    if ctx.indentLength == 0 {
      return false;
    }
    var outdentSize := OutdentStep(doc, parentItem, ctx.indentLength);
    if outdentSize == 0 {
      return false;
    }
    var changes := BuildOutdentChanges(doc, ctx, outdentSize);
    if |changes| == 0 {
      return false;
    }
    assert changes == OutdentPlan(doc, node, parentItem).value;
    view.Dispatch(changes, None);
    return true;
  }
}
