/**
 * Scroll synchronisation between the editor and the preview in split view. Anchors pair
 * the top of a source line in the editor with the top of the preview element rendered
 * from it; a scroll position in one pane maps to the other by linear interpolation
 * between the anchors around it. Pixel values are reals; the DOM measurements and the
 * editor's line geometry are parameters.
 */
module ScrollSync {
  import opened Wrappers

  // ---------------------------------------------------------------------------------
  // Small helpers

  function Min(a: real, b: real): real { if a <= b then a else b }
  function Max(a: real, b: real): real { if a >= b then a else b }

  /** `clamp(value, min, max)`: `Math.min(max, Math.max(min, value))`. */
  function Clamp(value: real, lo: real, hi: real): real {
    Min(hi, Max(lo, value))
  }

  /** A clamped value lies in the range, and a value already in it is unchanged. */
  lemma ClampRange(value: real, lo: real, hi: real)
    requires lo <= hi
    ensures lo <= Clamp(value, lo, hi) <= hi
    ensures lo <= value <= hi ==> Clamp(value, lo, hi) == value
    ensures value < lo ==> Clamp(value, lo, hi) == lo
    ensures value > hi ==> Clamp(value, lo, hi) == hi
  {
  }

  /** `getScrollableHeight(element)`: how far the element can scroll. */
  function ScrollableHeight(scrollHeight: real, clientHeight: real): (r: real)
    ensures r >= 0.0
    ensures r >= scrollHeight - clientHeight
    ensures r == 0.0 || r == scrollHeight - clientHeight
  {
    Max(0.0, scrollHeight - clientHeight)
  }

  // ---------------------------------------------------------------------------------
  // Binary search

  /** The binary search of `lowerBound` over `[low, high)`, halving as the loop does. */
  function LowerBoundFrom<T>(items: seq<T>, value: real, getValue: T -> real, low: nat, high: nat): (r: nat)
    requires low <= high <= |items|
    ensures low <= r <= high
    decreases high - low
  {
    if low >= high then low
    else
      var mid := (low + high) / 2;
      if getValue(items[mid]) < value then LowerBoundFrom(items, value, getValue, mid + 1, high)
      else LowerBoundFrom(items, value, getValue, low, mid)
  }

  /** The items are in ascending order of `getValue`. */
  predicate SortedBy<T>(items: seq<T>, getValue: T -> real) {
    forall i, j :: 0 <= i < j < |items| ==> getValue(items[i]) <= getValue(items[j])
  }

  /** On sorted items the search finds the first item whose value is at least `value`:
    * everything before the result is smaller, everything from it on is not. */
  lemma {:induction false} LowerBoundSorted<T>(items: seq<T>, value: real, getValue: T -> real, low: nat, high: nat)
    requires low <= high <= |items| && SortedBy(items, getValue)
    requires forall i :: 0 <= i < low ==> getValue(items[i]) < value
    requires forall i :: high <= i < |items| ==> getValue(items[i]) >= value
    ensures var r := LowerBoundFrom(items, value, getValue, low, high);
      (forall i :: 0 <= i < r ==> getValue(items[i]) < value)
      && (forall i :: r <= i < |items| ==> getValue(items[i]) >= value)
    decreases high - low
  {
    if low < high {
      var mid := (low + high) / 2;
      if getValue(items[mid]) < value {
        LowerBoundSorted(items, value, getValue, mid + 1, high);
      } else {
        LowerBoundSorted(items, value, getValue, low, mid);
      }
    }
  }

  /** `lowerBound(items, value, getValue)`. */
  method LowerBound<T>(items: seq<T>, value: real, getValue: T -> real) returns (low: nat)
    ensures low == LowerBoundFrom(items, value, getValue, 0, |items|)
    ensures low <= |items|
    ensures SortedBy(items, getValue) ==>
      (forall i :: 0 <= i < low ==> getValue(items[i]) < value)
      && (forall i :: low <= i < |items| ==> getValue(items[i]) >= value)
  {
    low := 0;
    var high := |items|;
    while low < high
      invariant low <= high <= |items|
      invariant LowerBoundFrom(items, value, getValue, low, high) == LowerBoundFrom(items, value, getValue, 0, |items|)
    {
      var mid := (low + high) / 2;
      if getValue(items[mid]) < value {
        low := mid + 1;
      } else {
        high := mid;
      }
    }
    if SortedBy(items, getValue) {
      LowerBoundSorted(items, value, getValue, 0, |items|);
    }
  }

  // ---------------------------------------------------------------------------------
  // Anchors

  /** A scroll anchor: a line's top in the editor and its element's top in the preview,
    * both from the top of the content. */
  datatype ScrollAnchor = ScrollAnchor(editorTop: real, previewTop: real)

  /** A preview element carrying `data-source-line`: the parsed line number (`None` when
    * the attribute is missing or not a number) and the element's top in the preview. */
  datatype AnchorNode = AnchorNode(sourceLine: Option<int>, previewTop: real)

  /** The anchor a node yields: none for a line outside `1..lines`; otherwise the editor
    * top of its line (`lineTop`, the editor's line geometry) and its preview top. */
  function NodeAnchor(node: AnchorNode, lines: nat, lineTop: nat -> real): Option<ScrollAnchor> {
    match node.sourceLine
    case None => None
    case Some(n) =>
      if n < 1 || n > lines then None else Some(ScrollAnchor(lineTop(n), node.previewTop))
  }

  /** The de-duplicating map after the first `n` nodes: each editor top keeps the
    * smallest preview top seen for it. */
  function Dedup(nodes: seq<AnchorNode>, n: nat, lines: nat, lineTop: nat -> real): map<real, real>
    requires n <= |nodes|
  {
    if n == 0 then map[]
    else
      var m := Dedup(nodes, n - 1, lines, lineTop);
      match NodeAnchor(nodes[n - 1], lines, lineTop)
      case None => m
      case Some(a) =>
        if a.editorTop !in m || a.previewTop < m[a.editorTop] then m[a.editorTop := a.previewTop] else m
  }

  /** Every node's anchor is represented, by a preview top no larger than its own. */
  lemma {:induction false} DedupKeepsSmallest(nodes: seq<AnchorNode>, n: nat, lines: nat, lineTop: nat -> real, j: nat)
    requires j < n <= |nodes| && NodeAnchor(nodes[j], lines, lineTop).Some?
    ensures var a := NodeAnchor(nodes[j], lines, lineTop).value;
      a.editorTop in Dedup(nodes, n, lines, lineTop) && Dedup(nodes, n, lines, lineTop)[a.editorTop] <= a.previewTop
  {
    if j < n - 1 {
      DedupKeepsSmallest(nodes, n - 1, lines, lineTop, j);
    }
  }

  /** Every entry of the map is the anchor of one of the nodes. */
  lemma {:induction false} DedupFromNode(nodes: seq<AnchorNode>, n: nat, lines: nat, lineTop: nat -> real, e: real) returns (j: nat)
    requires n <= |nodes| && e in Dedup(nodes, n, lines, lineTop)
    ensures j < n && NodeAnchor(nodes[j], lines, lineTop) == Some(ScrollAnchor(e, Dedup(nodes, n, lines, lineTop)[e]))
  {
    var m := Dedup(nodes, n - 1, lines, lineTop);
    var o := NodeAnchor(nodes[n - 1], lines, lineTop);
    if o.Some? && o.value.editorTop == e && Dedup(nodes, n, lines, lineTop)[e] == o.value.previewTop {
      j := n - 1;
    } else {
      j := DedupFromNode(nodes, n - 1, lines, lineTop, e);
    }
  }

  /** Strictly ascending editor tops: sorted, and no editor top twice. */
  predicate Ascending(anchors: seq<ScrollAnchor>) {
    forall i, j :: 0 <= i < j < |anchors| ==> anchors[i].editorTop < anchors[j].editorTop
  }

  /** The anchors are exactly the entries of `m`. */
  predicate EntriesOf(anchors: seq<ScrollAnchor>, m: map<real, real>) {
    (forall i :: 0 <= i < |anchors| ==> anchors[i].editorTop in m && m[anchors[i].editorTop] == anchors[i].previewTop)
    && (forall e :: e in m ==> exists i :: 0 <= i < |anchors| && anchors[i].editorTop == e)
  }

  /** `a` inserted into ascending anchors before the first larger editor top. */
  function InsertAnchor(anchors: seq<ScrollAnchor>, a: ScrollAnchor): (r: seq<ScrollAnchor>)
    ensures |r| == |anchors| + 1
    ensures forall x :: x in r <==> x in anchors || x == a
  {
    if anchors == [] || a.editorTop < anchors[0].editorTop then [a] + anchors
    else [anchors[0]] + InsertAnchor(anchors[1..], a)
  }

  /** Insertion keeps the anchors ascending when the new editor top is not there yet. */
  lemma {:induction false} InsertAscending(anchors: seq<ScrollAnchor>, a: ScrollAnchor)
    requires Ascending(anchors) && forall i :: 0 <= i < |anchors| ==> anchors[i].editorTop != a.editorTop
    ensures Ascending(InsertAnchor(anchors, a))
  {
    if anchors != [] && a.editorTop >= anchors[0].editorTop {
      InsertAscending(anchors[1..], a);
      var rest := InsertAnchor(anchors[1..], a);
      forall x | x in rest ensures anchors[0].editorTop < x.editorTop {
        if x != a {
          var k :| 0 <= k < |anchors[1..]| && anchors[1..][k] == x;
          assert anchors[k + 1] == x;
        }
      }
      var r := InsertAnchor(anchors, a);
      assert r == [anchors[0]] + rest;
      forall i, j | 0 <= i < j < |r| ensures r[i].editorTop < r[j].editorTop {
        if i == 0 {
          assert r[j] == rest[j - 1] && rest[j - 1] in rest;
        } else {
          assert r[i] == rest[i - 1] && r[j] == rest[j - 1];
        }
      }
    }
  }

  /** The keys of `m` without repetition, in the map's insertion order. */
  ghost predicate KeyOrder(m: map<real, real>, keys: seq<real>) {
    (forall e :: e in m <==> e in keys)
    && (forall i, j :: 0 <= i < j < |keys| ==> keys[i] != keys[j])
  }

  /** After `i` keys: the anchors are ascending entries of `m` for those keys. */
  ghost predicate SortedPrefix(m: map<real, real>, keys: seq<real>, i: nat, anchors: seq<ScrollAnchor>)
    requires i <= |keys|
  {
    Ascending(anchors)
    && (forall k :: 0 <= k < |anchors| ==>
          anchors[k].editorTop in m && m[anchors[k].editorTop] == anchors[k].previewTop && anchors[k].editorTop in keys[..i])
    && (forall j :: 0 <= j < i ==> exists k :: 0 <= k < |anchors| && anchors[k].editorTop == keys[j])
  }

  /** Inserting the next key's entry extends the sorted prefix by one key. */
  lemma SortStep(m: map<real, real>, keys: seq<real>, i: nat, anchors: seq<ScrollAnchor>)
    requires KeyOrder(m, keys) && i < |keys| && SortedPrefix(m, keys, i, anchors)
    ensures keys[i] in m
    ensures SortedPrefix(m, keys, i + 1, InsertAnchor(anchors, ScrollAnchor(keys[i], m[keys[i]])))
  {
    assert keys[i] in keys;
    var a := ScrollAnchor(keys[i], m[keys[i]]);
    forall k | 0 <= k < |anchors| ensures anchors[k].editorTop != a.editorTop {
      var j :| 0 <= j < i && keys[j] == anchors[k].editorTop;
    }
    InsertAscending(anchors, a);
    var next := InsertAnchor(anchors, a);
    forall k | 0 <= k < |next|
      ensures next[k].editorTop in m && m[next[k].editorTop] == next[k].previewTop && next[k].editorTop in keys[..i + 1]
    {
      assert next[k] in next;
      if next[k] != a {
        assert next[k] in anchors;
        var k' :| 0 <= k' < |anchors| && anchors[k'] == next[k];
        assert keys[..i] <= keys[..i + 1];
      }
    }
    forall j | 0 <= j < i + 1 ensures exists k :: 0 <= k < |next| && next[k].editorTop == keys[j] {
      if j == i {
        assert a in next;
      } else {
        var k :| 0 <= k < |anchors| && anchors[k].editorTop == keys[j];
        assert anchors[k] in next;
      }
    }
  }

  /** Once every key is inserted, the anchors are exactly the map's entries. */
  lemma SortDone(m: map<real, real>, keys: seq<real>, anchors: seq<ScrollAnchor>)
    requires KeyOrder(m, keys) && SortedPrefix(m, keys, |keys|, anchors)
    ensures Ascending(anchors) && EntriesOf(anchors, m)
  {
    forall e | e in m ensures exists k :: 0 <= k < |anchors| && anchors[k].editorTop == e {
      var j :| 0 <= j < |keys| && keys[j] == e;
    }
  }

  /** The entries of the map, listed in insertion order by `keys`, sorted by editor top
    * (`Array.from(map.entries()).sort`). */
  method SortAnchors(m: map<real, real>, keys: seq<real>) returns (anchors: seq<ScrollAnchor>)
    requires KeyOrder(m, keys)
    ensures Ascending(anchors) && EntriesOf(anchors, m)
  {
    anchors := [];
    var i := 0;
    while i < |keys|
      invariant i <= |keys| && SortedPrefix(m, keys, i, anchors)
    {
      SortStep(m, keys, i, anchors);
      anchors := InsertAnchor(anchors, ScrollAnchor(keys[i], m[keys[i]]));
      i := i + 1;
    }
    SortDone(m, keys, anchors);
  }

  /** `buildScrollAnchors(view, previewScrollEl)`: the nodes' anchors de-duplicated by
    * editor top, keeping the smallest preview top, in ascending editor-top order. */
  method BuildScrollAnchors(nodes: seq<AnchorNode>, lines: nat, lineTop: nat -> real) returns (anchors: seq<ScrollAnchor>)
    ensures Ascending(anchors) && EntriesOf(anchors, Dedup(nodes, |nodes|, lines, lineTop))
  {
    if |nodes| == 0 {
      return [];
    }
    var editorTopToPreviewTop: map<real, real> := map[];
    var insertionOrder: seq<real> := [];
    var i := 0;
    while i < |nodes|
      invariant i <= |nodes|
      invariant editorTopToPreviewTop == Dedup(nodes, i, lines, lineTop)
      invariant KeyOrder(editorTopToPreviewTop, insertionOrder)
    {
      var node := nodes[i];
      if node.sourceLine.Some? {
        var lineNumber := node.sourceLine.value;
        if 1 <= lineNumber <= lines {
          var editorTop := lineTop(lineNumber);
          if editorTop !in editorTopToPreviewTop {
            insertionOrder := insertionOrder + [editorTop];
          }
          if editorTop !in editorTopToPreviewTop || node.previewTop < editorTopToPreviewTop[editorTop] {
            editorTopToPreviewTop := editorTopToPreviewTop[editorTop := node.previewTop];
          }
        }
      }
      i := i + 1;
    }
    anchors := SortAnchors(editorTopToPreviewTop, insertionOrder);
  }

  // ---------------------------------------------------------------------------------
  // Interpolation

  /** `interpolateScroll(scrollTop, anchors, getFrom, getTo, fromScrollable, toScrollable)`:
    * the segment is found by the binary search; an anchor past the scrollable range is
    * replaced by the range's end. */
  function Interpolate(scrollTop: real, anchors: seq<ScrollAnchor>, getFrom: ScrollAnchor -> real,
                       getTo: ScrollAnchor -> real, fromScrollable: real, toScrollable: real): real
  {
    if fromScrollable <= 0.0 || toScrollable <= 0.0 then 0.0
    else if |anchors| < 2 then Clamp((scrollTop / fromScrollable) * toScrollable, 0.0, toScrollable)
    else
      var nextIndex := LowerBoundFrom(anchors, scrollTop, getFrom, 0, |anchors|);
      var prevFrom := if nextIndex > 0 then getFrom(anchors[nextIndex - 1]) else 0.0;
      var prevTo := if nextIndex > 0 then getTo(anchors[nextIndex - 1]) else 0.0;
      var useNext := nextIndex < |anchors| && getFrom(anchors[nextIndex]) <= fromScrollable;
      var nextFrom := if useNext then getFrom(anchors[nextIndex]) else fromScrollable;
      var nextTo := if useNext then getTo(anchors[nextIndex]) else toScrollable;
      var fromRange := nextFrom - prevFrom;
      if fromRange <= 0.0 then Clamp(nextTo, 0.0, toScrollable)
      else
        var ratio := (scrollTop - prevFrom) / fromRange;
        Clamp(prevTo + ratio * (nextTo - prevTo), 0.0, toScrollable)
  }

  /** The result is 0 when either pane cannot scroll, always lies within the target's
    * scrollable range, and without two anchors is the proportional position. */
  lemma InterpolateRange(scrollTop: real, anchors: seq<ScrollAnchor>, getFrom: ScrollAnchor -> real,
                         getTo: ScrollAnchor -> real, fromScrollable: real, toScrollable: real)
    ensures var r := Interpolate(scrollTop, anchors, getFrom, getTo, fromScrollable, toScrollable);
      && (fromScrollable <= 0.0 || toScrollable <= 0.0 ==> r == 0.0)
      && 0.0 <= r && (toScrollable > 0.0 ==> r <= toScrollable)
      && (fromScrollable > 0.0 && toScrollable > 0.0 && |anchors| < 2 ==>
            r == Clamp(scrollTop / fromScrollable * toScrollable, 0.0, toScrollable))
  {
  }

  /** The from-coordinates of the anchors strictly ascend. */
  predicate StrictlyAscending(anchors: seq<ScrollAnchor>, getValue: ScrollAnchor -> real) {
    forall i, j :: 0 <= i < j < |anchors| ==> getValue(anchors[i]) < getValue(anchors[j])
  }

  lemma DivideSelf(d: real)
    requires d > 0.0
    ensures d / d == 1.0
  {
  }

  /** Scrolled exactly to an anchor within range, the other pane scrolls to the anchor's
    * counterpart (clamped to its range). */
  lemma InterpolateAtAnchor(anchors: seq<ScrollAnchor>, getFrom: ScrollAnchor -> real, getTo: ScrollAnchor -> real,
                            fromScrollable: real, toScrollable: real, k: nat)
    requires fromScrollable > 0.0 && toScrollable > 0.0 && 2 <= |anchors| && k < |anchors|
    requires StrictlyAscending(anchors, getFrom) && 0.0 <= getFrom(anchors[k]) <= fromScrollable
    ensures Interpolate(getFrom(anchors[k]), anchors, getFrom, getTo, fromScrollable, toScrollable)
      == Clamp(getTo(anchors[k]), 0.0, toScrollable)
  {
    var value := getFrom(anchors[k]);
    LowerBoundSorted(anchors, value, getFrom, 0, |anchors|);
    var nextIndex := LowerBoundFrom(anchors, value, getFrom, 0, |anchors|);
    assert !(getFrom(anchors[k]) < value);
    var prevFrom := if k > 0 then getFrom(anchors[k - 1]) else 0.0;
    var prevTo := if k > 0 then getTo(anchors[k - 1]) else 0.0;
    var nextTo := getTo(anchors[k]);
    if value - prevFrom > 0.0 {
      var ratio := (value - prevFrom) / (value - prevFrom);
      DivideSelf(value - prevFrom);
      assert prevTo + ratio * (nextTo - prevTo) == nextTo;
    }
  }

  /** `mapEditorToPreview`. */
  function EditorToPreview(editorScrollTop: real, anchors: seq<ScrollAnchor>, editorScrollable: real, previewScrollable: real): real {
    Interpolate(editorScrollTop, anchors, (a: ScrollAnchor) => a.editorTop, (a: ScrollAnchor) => a.previewTop, editorScrollable, previewScrollable)
  }

  /** `mapPreviewToEditor`. */
  function PreviewToEditor(previewScrollTop: real, anchors: seq<ScrollAnchor>, editorScrollable: real, previewScrollable: real): real {
    Interpolate(previewScrollTop, anchors, (a: ScrollAnchor) => a.previewTop, (a: ScrollAnchor) => a.editorTop, previewScrollable, editorScrollable)
  }

  /** The two maps send each anchor within both ranges to its counterpart, so they undo
    * each other there: preview-to-editor after editor-to-preview returns to the anchor. */
  lemma AnchorRoundTrip(anchors: seq<ScrollAnchor>, editorScrollable: real, previewScrollable: real, k: nat)
    requires editorScrollable > 0.0 && previewScrollable > 0.0 && 2 <= |anchors| && k < |anchors|
    requires Ascending(anchors) && StrictlyAscending(anchors, (a: ScrollAnchor) => a.previewTop)
    requires 0.0 <= anchors[k].editorTop <= editorScrollable && 0.0 <= anchors[k].previewTop <= previewScrollable
    ensures EditorToPreview(anchors[k].editorTop, anchors, editorScrollable, previewScrollable) == anchors[k].previewTop
    ensures PreviewToEditor(anchors[k].previewTop, anchors, editorScrollable, previewScrollable) == anchors[k].editorTop
    ensures PreviewToEditor(EditorToPreview(anchors[k].editorTop, anchors, editorScrollable, previewScrollable),
                            anchors, editorScrollable, previewScrollable) == anchors[k].editorTop
  {
    var toEditor: ScrollAnchor -> real := (a: ScrollAnchor) => a.editorTop;
    var toPreview: ScrollAnchor -> real := (a: ScrollAnchor) => a.previewTop;
    assert StrictlyAscending(anchors, toEditor);
    InterpolateAtAnchor(anchors, toEditor, toPreview, editorScrollable, previewScrollable, k);
    InterpolateAtAnchor(anchors, toPreview, toEditor, previewScrollable, editorScrollable, k);
  }
}
