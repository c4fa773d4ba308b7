/**
 * The range helpers of `src/components/editor/extensions/wysiwyg/utils.ts`: document
 * ranges `[from, to)`, a range checker that answers membership queries for positions
 * asked in non-decreasing order by walking a cursor forward, and the two tests deciding
 * whether a selection or the cursor line touches a range.
 */
module RangeUtils {
  import opened TextDoc

  datatype DocRange = DocRange(from: int, to: int)

  /** Position `p` lies in `[r.from, r.to)`. */
  predicate Holds(r: DocRange, p: int) {
    r.from <= p < r.to
  }

  /** Some range of the list holds `p`. */
  predicate Covered(ranges: seq<DocRange>, p: int) {
    exists j :: 0 <= j < |ranges| && Holds(ranges[j], p)
  }

  predicate SortedByFrom(ranges: seq<DocRange>) {
    forall i, j :: 0 <= i < j < |ranges| ==> ranges[i].from <= ranges[j].from
  }

  /** Where the checker's cursor stops for `pos` when it starts at `k`: the first range at
    * or after `k` that ends after `pos`. */
  function Advance(ranges: seq<DocRange>, k: nat, pos: int): (i: nat)
    requires k <= |ranges|
    ensures k <= i <= |ranges|
    ensures forall j :: k <= j < i ==> ranges[j].to <= pos
    ensures i < |ranges| ==> pos < ranges[i].to
    decreases |ranges| - k
  {
    if k < |ranges| && ranges[k].to <= pos then Advance(ranges, k + 1, pos) else k
  }

  /** With ranges sorted by start and every range before the cursor ending at or before
    * `pos`, the range under the cursor holds `pos` exactly when some range does. */
  lemma AdvanceExact(ranges: seq<DocRange>, k: nat, pos: int)
    requires k <= |ranges| && SortedByFrom(ranges)
    requires forall j :: 0 <= j < k ==> ranges[j].to <= pos
    ensures var i := Advance(ranges, k, pos);
      (i < |ranges| && Holds(ranges[i], pos)) <==> Covered(ranges, pos)
  {
    var i := Advance(ranges, k, pos);
    if Covered(ranges, pos) {
      var j :| 0 <= j < |ranges| && Holds(ranges[j], pos);
      assert i <= j;
      assert i < |ranges| && ranges[i].from <= ranges[j].from;
    }
  }

  /** `createRangeChecker(ranges)`: the closure and its captured index. */
  class RangeChecker {
    const ranges: seq<DocRange>
    var idx: nat
    /** The largest position asked so far, and whether any was asked. */
    ghost var highest: int
    ghost var asked: bool

    ghost predicate Valid()
      reads this
    {
      idx <= |ranges| && (!asked ==> idx == 0)
      && forall j :: 0 <= j < idx ==> ranges[j].to <= highest
    }

    constructor (ranges: seq<DocRange>)
      ensures Valid() && this.ranges == ranges && idx == 0 && !asked
    {
      this.ranges := ranges;
      idx := 0;
      highest := 0;
      asked := false;
    }

    /** One query. The index only moves forward and the answer names a range holding `pos`;
      * for ranges sorted by start and non-decreasing queries the answer is exact. */
    method Check(pos: int) returns (b: bool)
      requires Valid()
      modifies this
      ensures Valid() && asked
      ensures highest == if old(asked) && old(highest) > pos then old(highest) else pos
      ensures old(idx) <= idx == Advance(ranges, old(idx), pos)
      ensures b <==> idx < |ranges| && Holds(ranges[idx], pos)
      ensures b ==> Covered(ranges, pos)
      ensures SortedByFrom(ranges) && (old(asked) ==> old(highest) <= pos) ==> (b <==> Covered(ranges, pos))
    {
      ghost var start := idx;
      while idx < |ranges| && ranges[idx].to <= pos
        invariant start <= idx <= |ranges|
        invariant Advance(ranges, idx, pos) == Advance(ranges, start, pos)
        invariant highest == old(highest) && asked == old(asked)
      {
        idx := idx + 1;
      }
      assert Advance(ranges, idx, pos) == idx;
      if !asked || highest <= pos {
        AdvanceExactFrom(ranges, start, idx, pos, if asked then highest else pos);
      }
      highest := if asked && highest > pos then highest else pos;
      asked := true;
      if idx >= |ranges| {
        return false;
      }
      b := pos >= ranges[idx].from && pos < ranges[idx].to;
    }
  }

  /** Bridge for the checker: ranges before `start` end by `h <= pos`, so after advancing to
    * `i` every range before `i` ends by `pos`. */
  lemma AdvanceExactFrom(ranges: seq<DocRange>, start: nat, i: nat, pos: int, h: int)
    requires start <= |ranges| && i == Advance(ranges, start, pos) && h <= pos
    requires forall j :: 0 <= j < start ==> ranges[j].to <= h
    ensures forall j :: 0 <= j < i ==> ranges[j].to <= pos
    ensures SortedByFrom(ranges) ==> ((i < |ranges| && Holds(ranges[i], pos)) <==> Covered(ranges, pos))
  {
    if SortedByFrom(ranges) {
      AdvanceExact(ranges, i, pos);
      assert Advance(ranges, i, pos) == i;
    }
  }

  /** `isSelectionInRange`: a cursor must sit in `[from, to)`; a non-empty selection must
    * overlap it. */
  function IsSelectionInRange(sel: DocRange, from: int, to: int): (r: bool)
    ensures sel.from == sel.to ==> (r <==> Holds(DocRange(from, to), sel.from))
  {
    if sel.from == sel.to then from <= sel.from < to
    else sel.from < to && sel.to > from
  }

  /** For a non-empty selection and a non-empty range, the test holds exactly when some
    * position lies in both. */
  lemma SelectionOverlapIff(sel: DocRange, from: int, to: int)
    requires sel.from < sel.to && from < to
    ensures IsSelectionInRange(sel, from, to) <==> exists p :: Holds(sel, p) && Holds(DocRange(from, to), p)
  {
    if IsSelectionInRange(sel, from, to) {
      var p := if sel.from < from then from else sel.from;
      assert Holds(sel, p) && Holds(DocRange(from, to), p);
    }
  }

  /** `isCursorOnRangeLine`: the cursor line lies between the line of `from` and the line of
    * the last position of the range (`from` itself for an empty range). */
  predicate IsCursorOnRangeLine(doc: string, cursorLine: int, from: nat, to: int)
    requires from <= |doc| && to - 1 <= |doc|
  {
    var last: nat := if from > to - 1 then from else to - 1;
    LineAt(doc, from) <= cursorLine <= LineAt(doc, last)
  }

  /** Equivalently: the cursor line is a line of the document whose span meets
    * `[from, last]`. */
  lemma CursorOnRangeLineIff(doc: string, cursorLine: int, from: nat, to: int)
    requires from <= |doc| && to - 1 <= |doc|
    ensures var last: nat := if from > to - 1 then from else to - 1;
      IsCursorOnRangeLine(doc, cursorLine, from, to) <==>
        (1 <= cursorLine <= LineCount(doc)
         && LineFrom(doc, cursorLine) <= last && from <= LineTo(doc, cursorLine))
  {
    var last: nat := if from > to - 1 then from else to - 1;
    LineBounds(doc, from);
    LineBounds(doc, last);
    if 1 <= cursorLine <= LineCount(doc) {
      var c: nat := cursorLine;
      var s := LineAt(doc, from);
      var t := LineAt(doc, last);
      if s < c { LinesOrdered(doc, s, c); }
      if c < s { LinesOrdered(doc, c, s); }
      if t < c { LinesOrdered(doc, t, c); }
      if c < t { LinesOrdered(doc, c, t); }
    }
  }
}
