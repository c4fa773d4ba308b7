/**
 * The task-list checkbox widget: the `[ ]`/`[x]` marker of a GFM task list item (section
 * 5.3 of the GitHub Flavored Markdown Spec) is shown as a checkbox, and a click on it
 * rewrites the marker text in the document.
 */
module TaskCheckbox {
  import opened Wrappers
  import opened TextDoc
  import opened EditorView

  /** `/^\[[ xX]\]$/`: the whole text is a task marker. */
  predicate IsTaskMarkerText(text: string) {
    |text| == 3 && text[0] == '[' && text[1] in {' ', 'x', 'X'} && text[2] == ']'
  }

  /** The three marker texts are exactly the ones the pattern accepts. */
  lemma TaskMarkerTexts(text: string)
    ensures IsTaskMarkerText(text) <==> text == "[ ]" || text == "[x]" || text == "[X]"
  {
    if IsTaskMarkerText(text) {
      assert text == [text[0], text[1], text[2]];
    }
  }

  /** `[x]` or `[X]` starts at index `i` of `text`. */
  predicate CheckedAt(text: string, i: int) {
    0 <= i && i + 3 <= |text| && text[i] == '[' && text[i + 1] in {'x', 'X'} && text[i + 2] == ']'
  }

  /** `/\[[xX]\]/.test(text)`: a checked marker occurs anywhere in the text. */
  predicate HasCheckedMarker(text: string) {
    exists i :: 0 <= i < |text| && CheckedAt(text, i)
  }

  /** `toggleTaskMarkerText`: a text holding a checked marker becomes unchecked, any other
    * text becomes checked. */
  function ToggleTaskMarkerText(text: string): (r: string)
    ensures IsTaskMarkerText(r)
    ensures r == "[ ]" <==> HasCheckedMarker(text)
  {
    if HasCheckedMarker(text) then "[ ]"
    else
      assert "[ ]"[1] == ' ';
      "[x]"
  }

  /** Whether a marker text shows a ticked box. */
  predicate IsChecked(marker: string) {
    marker == "[x]" || marker == "[X]"
  }

  /** On the three marker texts, toggling flips the box, and toggling twice gives back a
    * marker with the same state (an upper-case `[X]` comes back as `[x]`). */
  lemma {:induction false} ToggleFlips(text: string)
    requires IsTaskMarkerText(text)
    ensures IsChecked(ToggleTaskMarkerText(text)) == !IsChecked(text)
    ensures ToggleTaskMarkerText(ToggleTaskMarkerText(text)) == if text == "[X]" then "[x]" else text
  {
    TaskMarkerTexts(text);
    if IsChecked(text) {
      assert CheckedAt(text, 0);
    } else {
      assert text == "[ ]";
      assert forall i :: 0 <= i < |text| ==> !CheckedAt(text, i);
    }
    var once := ToggleTaskMarkerText(text);
    TaskMarkerTexts(once);
    if once == "[x]" {
      assert CheckedAt(once, 0);
    } else {
      assert forall i :: 0 <= i < |once| ==> !CheckedAt(once, i);
    }
  }

  /** The change a click dispatches, if any: the marker bounds must be a non-empty range of
    * the document and the text there a task marker. */
  function ClickChange(doc: string, markerFrom: int, markerTo: int): (r: Option<Change>)
    ensures r.None? <==>
      markerFrom < 0 || markerTo > |doc| || markerFrom >= markerTo
      || !IsTaskMarkerText(doc[markerFrom..markerTo])
    ensures r.Some? ==>
      (r.value.from == markerFrom && r.value.to == markerTo
       && IsTaskMarkerText(r.value.insert)
       && IsChecked(r.value.insert) == !IsChecked(doc[markerFrom..markerTo]))
  {
    if markerFrom < 0 || markerTo > |doc| || markerFrom >= markerTo then None
    else
      var markerText := doc[markerFrom..markerTo];
      if !IsTaskMarkerText(markerText) then None
      else
        ToggleFlips(markerText);
        Some(Change(markerFrom, markerTo, ToggleTaskMarkerText(markerText)))
  }

  /** The document and selection after a click. */
  function AfterClick(doc: string, sel: Selection, markerFrom: int, markerTo: int): (string, Selection)
  {
    var c := ClickChange(doc, markerFrom, markerTo);
    AfterInsert(doc, sel, markerFrom, markerTo, if c.Some? then Some(c.value.insert) else None)
  }

  /** A click that edits replaces exactly the marker, keeps the rest of the document and
    * leaves a marker of the opposite state in its place. */
  lemma ClickReplacesMarker(doc: string, sel: Selection, markerFrom: int, markerTo: int)
    requires ClickChange(doc, markerFrom, markerTo).Some?
    ensures var d := AfterClick(doc, sel, markerFrom, markerTo).0;
      |d| == |doc| && d[..markerFrom] == doc[..markerFrom] && d[markerTo..] == doc[markerTo..]
      && IsTaskMarkerText(d[markerFrom..markerTo])
      && IsChecked(d[markerFrom..markerTo]) == !IsChecked(doc[markerFrom..markerTo])
  {
  }

  /** Two clicks on a `[ ]` or `[x]` marker give the original document back. */
  lemma ClickTwice(doc: string, sel: Selection, markerFrom: int, markerTo: int)
    requires ClickChange(doc, markerFrom, markerTo).Some?
    requires doc[markerFrom..markerTo] != "[X]"
    ensures var d := AfterClick(doc, sel, markerFrom, markerTo).0;
      ClickChange(d, markerFrom, markerTo).Some?
      && AfterClick(d, sel, markerFrom, markerTo).0 == doc
  {
    var m := doc[markerFrom..markerTo];
    var d := AfterClick(doc, sel, markerFrom, markerTo).0;
    ToggleFlips(m);
    assert d[markerFrom..markerTo] == ToggleTaskMarkerText(m);
    var d2 := AfterClick(d, sel, markerFrom, markerTo).0;
    assert d2[markerFrom..markerTo] == m;
    assert d2 == doc[..markerFrom] + m + doc[markerTo..];
    assert doc == doc[..markerFrom] + m + doc[markerTo..];
  }

  class TaskCheckboxWidget {
    const checked: bool
    const markerFrom: int
    const markerTo: int

    constructor (checked: bool, markerFrom: int, markerTo: int)
      ensures this.checked == checked && this.markerFrom == markerFrom && this.markerTo == markerTo
    {
      this.checked := checked;
      this.markerFrom := markerFrom;
      this.markerTo := markerTo;
    }

    /** The checkbox's click handler. */
    method Click(view: View)
      requires view.Valid()
      modifies view
      ensures view.Valid()
      ensures (view.doc, view.sel) == AfterClick(old(view.doc), old(view.sel), markerFrom, markerTo)
    {
      if markerFrom < 0 || markerTo > |view.doc| || markerFrom >= markerTo {
        return;
      }
      var markerText := view.doc[markerFrom..markerTo];
      if !IsTaskMarkerText(markerText) {
        return;
      }
      var change := Change(markerFrom, markerTo, ToggleTaskMarkerText(markerText));
      ApplyOne(view.doc, change);
      view.Dispatch([change], None);
    }

    /** `eq`: same state and same marker bounds. */
    predicate Eq(other: TaskCheckboxWidget) {
      checked == other.checked && markerFrom == other.markerFrom && markerTo == other.markerTo
    }

    /** `ignoreEvent`: mouse events are left to the widget. */
    predicate IgnoreEvent(isMouseEvent: bool) {
      isMouseEvent
    }
  }

  /** CodeMirror keeps the DOM of the old widget when `eq` says the new one is equal, so that
    * DOM's checkbox and click handler stay those of the old widget. That reuse is sound: the
    * box shows the same state, and a click that edits makes the same change the new widget's
    * handler would, leaving a marker of the opposite state at the new widget's bounds. */
  lemma EqReusesDom(a: TaskCheckboxWidget, b: TaskCheckboxWidget, doc: string, sel: Selection)
    requires a.Eq(b)
    ensures a.checked == b.checked
    ensures AfterClick(doc, sel, a.markerFrom, a.markerTo) == AfterClick(doc, sel, b.markerFrom, b.markerTo)
    ensures ClickChange(doc, b.markerFrom, b.markerTo).Some? ==>
      var d := AfterClick(doc, sel, a.markerFrom, a.markerTo).0;
      IsTaskMarkerText(d[b.markerFrom..b.markerTo])
      && IsChecked(d[b.markerFrom..b.markerTo]) == !IsChecked(doc[b.markerFrom..b.markerTo])
  {
    if ClickChange(doc, b.markerFrom, b.markerTo).Some? {
      ClickReplacesMarker(doc, sel, b.markerFrom, b.markerTo);
    }
  }
}
