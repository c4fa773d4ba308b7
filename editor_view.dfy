/**
 * The CodeMirror editor view as the commands see it: a document string and a selection
 * made of ranges with an anchor and a head. `Dispatch` applies a transaction: a set of
 * changes against the current document and, optionally, a new selection; without one
 * the old selection is mapped through the changes.
 */
module EditorView {
  import opened Wrappers
  import opened TextDoc

  datatype SelRange = SelRange(anchor: nat, head: nat) {
    function From(): nat { if anchor <= head then anchor else head }
    function To(): nat { if anchor <= head then head else anchor }
    predicate IsEmpty() { anchor == head }
  }

  datatype Selection = Selection(ranges: seq<SelRange>, mainIndex: nat) {
    /** At least one range, the main index points at one, and every end is in the document. */
    predicate WellFormed(len: nat) {
      |ranges| >= 1 && mainIndex < |ranges|
      && forall i :: 0 <= i < |ranges| ==> ranges[i].anchor <= len && ranges[i].head <= len
    }

    function Main(): SelRange
      requires mainIndex < |ranges|
    {
      ranges[mainIndex]
    }
  }

  /** `EditorSelection.cursor(pos)`. */
  function Cursor(pos: nat): Selection {
    Selection([SelRange(pos, pos)], 0)
  }

  /** `{ anchor, head }` as a transaction's selection. */
  function Single(anchor: nat, head: nat): Selection {
    Selection([SelRange(anchor, head)], 0)
  }

  /** `SelectionRange.map`: a cursor maps backward; a non-empty range maps its start
    * forward and its end backward, so that text inserted at either edge stays outside it,
    * and keeps its direction. */
  function MapRange(r: SelRange, changes: seq<Change>): SelRange
    requires ChangesOrdered(changes)
  {
    if r.IsEmpty() then
      var p := MapPos(r.anchor, changes);
      SelRange(p, p)
    else
      var from := MapPosForward(r.From(), changes);
      var to := MapPos(r.To(), changes);
      if r.anchor <= r.head then SelRange(from, to) else SelRange(to, from)
  }

  function MapSelection(sel: Selection, changes: seq<Change>): (r: Selection)
    requires ChangesOrdered(changes)
    ensures |r.ranges| == |sel.ranges| && r.mainIndex == sel.mainIndex
  {
    Selection(seq(|sel.ranges|, i requires 0 <= i < |sel.ranges| => MapRange(sel.ranges[i], changes)), sel.mainIndex)
  }

  lemma MapSelectionWellFormed(doc: string, sel: Selection, changes: seq<Change>)
    requires sel.WellFormed(|doc|) && ChangesValid(changes, |doc|)
    ensures MapSelection(sel, changes).WellFormed(|ApplyChanges(doc, changes)|)
  {
    var r := MapSelection(sel, changes);
    forall i | 0 <= i < |r.ranges|
      ensures r.ranges[i].anchor <= |ApplyChanges(doc, changes)| && r.ranges[i].head <= |ApplyChanges(doc, changes)|
    {
      MapPosBound(doc, sel.ranges[i].anchor, changes);
      MapPosBound(doc, sel.ranges[i].head, changes);
    }
  }

  /** The document and selection after dispatching `insert` over `[from, to)`; nothing
    * changes when there is nothing to insert. */
  function AfterInsert(doc: string, sel: Selection, from: int, to: int, insert: Option<string>): (string, Selection)
    requires insert.Some? ==> 0 <= from <= to <= |doc|
  {
    if insert.None? then (doc, sel)
    else (Replace(doc, from, to, insert.value), MapSelection(sel, [Change(from, to, insert.value)]))
  }

  class View {
    var doc: string
    var sel: Selection

    ghost predicate Valid()
      reads this
    {
      sel.WellFormed(|doc|)
    }

    constructor (doc: string, sel: Selection)
      requires sel.WellFormed(|doc|)
      ensures Valid() && this.doc == doc && this.sel == sel
    {
      this.doc := doc;
      this.sel := sel;
    }

    /** `view.dispatch({ changes, selection })`. */
    method Dispatch(changes: seq<Change>, selection: Option<Selection>)
      requires Valid() && ChangesValid(changes, |doc|)
      requires selection.Some? ==> selection.value.WellFormed(|ApplyChanges(doc, changes)|)
      modifies this
      ensures Valid()
      ensures doc == ApplyChanges(old(doc), changes)
      ensures sel == if selection.Some? then selection.value else MapSelection(old(sel), changes)
    {
      if selection.None? {
        MapSelectionWellFormed(doc, sel, changes);
      }
      var newDoc := ApplyChanges(doc, changes);
      sel := if selection.Some? then selection.value else MapSelection(sel, changes);
      doc := newDoc;
    }
  }
}
