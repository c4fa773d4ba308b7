/**
 * The editor document as one string, with the line structure CodeMirror derives from it:
 * lines are numbered from 1, line `n` spans `[LineFrom(n), LineTo(n)]` where `LineTo(n)`
 * is the position of the newline that ends it (or the document length), and `LineAt(pos)`
 * is the number of the line holding position `pos`.
 */
module TextDoc {

  /** The number of newlines in `s`. */
  function CountNl(s: string): nat {
    if s == [] then 0 else CountNl(s[..|s| - 1]) + (if s[|s| - 1] == '\n' then 1 else 0)
  }

  lemma {:induction false} CountNlAppend(a: string, b: string)
    ensures CountNl(a + b) == CountNl(a) + CountNl(b)
  {
    if b == [] {
      assert a + b == a;
    } else {
      assert (a + b)[..|a + b| - 1] == a + b[..|b| - 1];
      CountNlAppend(a, b[..|b| - 1]);
    }
  }

  /** Text without a newline counts none. */
  lemma {:induction false} CountNlNone(s: string)
    requires '\n' !in s
    ensures CountNl(s) == 0
  {
    if s != [] {
      assert s[..|s| - 1] <= s;
      CountNlNone(s[..|s| - 1]);
    }
  }

  lemma CountNlSplit(s: string, i: nat, j: nat)
    requires i <= j <= |s|
    ensures CountNl(s[..j]) == CountNl(s[..i]) + CountNl(s[i..j])
  {
    assert s[..j] == s[..i] + s[i..j];
    CountNlAppend(s[..i], s[i..j]);
  }

  /** A newline inside `[i, j)` makes the count up to `j` larger than the count up to `i`. */
  lemma CountNlGrows(s: string, i: nat, k: nat, j: nat)
    requires i <= k < j <= |s| && s[k] == '\n'
    ensures CountNl(s[..j]) > CountNl(s[..i])
  {
    CountNlSplit(s, i, k + 1);
    CountNlSplit(s, k + 1, j);
    assert s[..k + 1][..k] == s[..k];
    CountNlSplit(s, i, k);
  }

  /** Number of lines of the document (`doc.lines`). */
  function LineCount(doc: string): nat {
    CountNl(doc) + 1
  }

  /** Number of the line holding `pos` (`doc.lineAt(pos).number`). */
  function LineAt(doc: string, pos: nat): nat
    requires pos <= |doc|
  {
    CountNl(doc[..pos]) + 1
  }

  /** The first position at or after `i` that holds a newline, or the end of the text. */
  function EndOfLine(s: string, i: nat): (r: nat)
    requires i <= |s|
    ensures i <= r <= |s|
    ensures r < |s| ==> s[r] == '\n'
    decreases |s| - i
  {
    if i == |s| || s[i] == '\n' then i else EndOfLine(s, i + 1)
  }

  /** No newline lies between `i` and the end of its line. */
  lemma {:induction false} EndOfLineClear(s: string, i: nat)
    requires i <= |s|
    ensures '\n' !in s[i..EndOfLine(s, i)]
    decreases |s| - i
  {
    if i < |s| && s[i] != '\n' {
      EndOfLineClear(s, i + 1);
      assert s[i..EndOfLine(s, i)] == [s[i]] + s[i + 1..EndOfLine(s, i)];
    }
  }

  /** Start of line `n`: 0 for the first line, otherwise just after the newline that ends
    * line `n - 1` (that newline exists for every line number up to `LineCount`, see
    * `LineFromFacts`; the last alternative is never taken). */
  function LineFrom(doc: string, n: nat): (r: nat)
    requires 1 <= n <= LineCount(doc)
    ensures r <= |doc|
  {
    if n == 1 then 0
    else
      var e := EndOfLine(doc, LineFrom(doc, n - 1));
      if e < |doc| then e + 1 else |doc|
  }

  /** Line `n` starts after exactly `n - 1` newlines, the last of them just before it. */
  lemma {:induction false} LineFromFacts(doc: string, n: nat)
    requires 1 <= n <= LineCount(doc)
    ensures CountNl(doc[..LineFrom(doc, n)]) == n - 1
    ensures LineFrom(doc, n) > 0 ==> doc[LineFrom(doc, n) - 1] == '\n'
    ensures n > 1 ==> LineFrom(doc, n) == EndOfLine(doc, LineFrom(doc, n - 1)) + 1
  {
    if n > 1 {
      LineFromFacts(doc, n - 1);
      NewlineAhead(doc, LineFrom(doc, n - 1));
    }
  }

  /** From a position with fewer newlines before it than the whole text holds, the line
    * runs on to a newline, and one more newline lies before the position after it. */
  lemma NewlineAhead(doc: string, p: nat)
    requires p <= |doc| && CountNl(doc[..p]) < CountNl(doc)
    ensures EndOfLine(doc, p) < |doc|
    ensures CountNl(doc[..EndOfLine(doc, p) + 1]) == CountNl(doc[..p]) + 1
  {
    var e := EndOfLine(doc, p);
    EndOfLineClear(doc, p);
    CountNlSplit(doc, p, e);
    CountNlNone(doc[p..e]);
    assert e < |doc| by {
      assert doc[..|doc|] == doc;
    }
    assert doc[..e + 1][..e] == doc[..e];
  }

  /** End of line `n`: the position of its terminating newline, or the document length. */
  function LineTo(doc: string, n: nat): (r: nat)
    requires 1 <= n <= LineCount(doc)
    ensures LineFrom(doc, n) <= r <= |doc|
    ensures r < |doc| ==> doc[r] == '\n'
  {
    EndOfLine(doc, LineFrom(doc, n))
  }

  /** A line holds no newline. */
  lemma LineClear(doc: string, n: nat)
    requires 1 <= n <= LineCount(doc)
    ensures '\n' !in doc[LineFrom(doc, n)..LineTo(doc, n)]
  {
    EndOfLineClear(doc, LineFrom(doc, n));
  }

  /** The text of line `n`, without its newline. */
  function LineText(doc: string, n: nat): string
    requires 1 <= n <= LineCount(doc)
  {
    doc[LineFrom(doc, n)..LineTo(doc, n)]
  }

  /** The text of the line holding `pos` (`doc.lineAt(pos).text`). */
  function LineTextAt(doc: string, pos: nat): string
    requires pos <= |doc|
  {
    LineBounds(doc, pos);
    LineText(doc, LineAt(doc, pos))
  }

  /** A line that is not the last ends in a newline, and the next line starts right after it. */
  lemma NextLine(doc: string, n: nat)
    requires 1 <= n < LineCount(doc)
    ensures LineTo(doc, n) < |doc|
    ensures LineFrom(doc, n + 1) == LineTo(doc, n) + 1
  {
    LineFromFacts(doc, n + 1);
  }

  /** Lines come in order: a line ends before any later line starts. */
  lemma {:induction false} LinesOrdered(doc: string, p: nat, q: nat)
    requires 1 <= p < q <= LineCount(doc)
    ensures LineTo(doc, p) < LineFrom(doc, q)
    decreases q - p
  {
    NextLine(doc, p);
    if q > p + 1 {
      LinesOrdered(doc, p + 1, q);
    }
  }

  /** The last line ends at the end of the document. */
  lemma LastLine(doc: string)
    ensures LineTo(doc, LineCount(doc)) == |doc|
  {
    assert doc[..|doc|] == doc;
    var n := LineCount(doc);
    LineFromFacts(doc, n);
    var p := LineFrom(doc, n);
    var e := LineTo(doc, n);
    if e < |doc| {
      CountNlGrows(doc, p, e, |doc|);
      assert false;
    }
  }

  /** `LineAt` and the line bounds agree: `pos` is on line `n` exactly when it lies in
    * `[LineFrom(n), LineTo(n)]`. */
  lemma LineAtIff(doc: string, pos: nat, n: nat)
    requires pos <= |doc| && 1 <= n <= LineCount(doc)
    ensures LineAt(doc, pos) == n <==> LineFrom(doc, n) <= pos <= LineTo(doc, n)
  {
    LineFromFacts(doc, n);
    LineClear(doc, n);
    if LineFrom(doc, n) <= pos <= LineTo(doc, n) {
      CountNlSplit(doc, LineFrom(doc, n), pos);
      assert doc[LineFrom(doc, n)..pos] == doc[LineFrom(doc, n)..LineTo(doc, n)][..pos - LineFrom(doc, n)];
      CountNlNone(doc[LineFrom(doc, n)..pos]);
    }
    if LineAt(doc, pos) == n {
      LineBounds(doc, pos);
    }
  }

  /** Every position lies within the bounds of its own line. */
  lemma LineBounds(doc: string, pos: nat)
    requires pos <= |doc|
    ensures 1 <= LineAt(doc, pos) <= LineCount(doc)
    ensures LineFrom(doc, LineAt(doc, pos)) <= pos <= LineTo(doc, LineAt(doc, pos))
  {
    assert doc[..|doc|] == doc;
    CountNlSplit(doc, pos, |doc|);
    LineStartBefore(doc, pos);
    LineEndAfter(doc, pos);
  }

  lemma LineStartBefore(doc: string, pos: nat)
    requires pos <= |doc| && LineAt(doc, pos) <= LineCount(doc)
    ensures LineFrom(doc, LineAt(doc, pos)) <= pos
  {
    LineFromFacts(doc, LineAt(doc, pos));
    StartNotAfter(doc, pos, LineFrom(doc, LineAt(doc, pos)));
  }

  /** A position that starts a line (the text before it ends in a newline) with no more
    * newlines before it than before `pos` is not after `pos`. */
  lemma StartNotAfter(doc: string, pos: nat, f: nat)
    requires pos <= |doc| && f <= |doc| && CountNl(doc[..f]) <= CountNl(doc[..pos])
    requires f > 0 ==> doc[f - 1] == '\n'
    ensures f <= pos
  {
    if f > pos {
      CountNlGrows(doc, pos, f - 1, f);
    }
  }

  lemma LineEndAfter(doc: string, pos: nat)
    requires pos <= |doc| && LineAt(doc, pos) <= LineCount(doc)
    requires LineFrom(doc, LineAt(doc, pos)) <= pos
    ensures pos <= LineTo(doc, LineAt(doc, pos))
  {
    var m := LineAt(doc, pos);
    LineFromFacts(doc, m);
    var t := LineTo(doc, m);
    if t < pos {
      CountNlGrows(doc, LineFrom(doc, m), t, pos);
    }
  }

  /** Line numbers never decrease as the position grows. */
  lemma LineAtMonotone(doc: string, p: nat, q: nat)
    requires p <= q <= |doc|
    ensures LineAt(doc, p) <= LineAt(doc, q)
  {
    CountNlSplit(doc, p, q);
  }

  /** Replacing `[from, to)` of the text by `insert`. */
  function Replace(doc: string, from: nat, to: nat, insert: string): (r: string)
    requires from <= to <= |doc|
    ensures |r| == |doc| - (to - from) + |insert|
    ensures r[..from] == doc[..from] && r[from..from + |insert|] == insert
    ensures r[from + |insert|..] == doc[to..]
  {
    doc[..from] + insert + doc[to..]
  }

  /** One change of a transaction: replace `[from, to)` of the original document. */
  datatype Change = Change(from: nat, to: nat, insert: string)

  /** Changes are ordered, do not overlap and lie inside a document of length `len`. */
  predicate ChangesValid(changes: seq<Change>, len: nat) {
    ChangesOrdered(changes) && forall i :: 0 <= i < |changes| ==> changes[i].to <= len
  }

  /** Every change is a range, and each ends before the next begins. */
  predicate ChangesOrdered(changes: seq<Change>) {
    (forall i :: 0 <= i < |changes| ==> changes[i].from <= changes[i].to)
    && (forall i, j :: 0 <= i < j < |changes| ==> changes[i].to <= changes[j].from)
  }

  /** The changes after the first are ordered and start after the first one ends. */
  lemma RestOrdered(changes: seq<Change>)
    requires ChangesOrdered(changes) && changes != []
    ensures ChangesOrdered(changes[1..])
    ensures changes[1..] != [] ==> changes[0].to <= changes[1..][0].from
  {
    var rest := changes[1..];
    forall i, j | 0 <= i < j < |rest| ensures rest[i].to <= rest[j].from {
      assert rest[i] == changes[i + 1] && rest[j] == changes[j + 1];
    }
  }

  /** The changes after the first lie in the document too. */
  lemma RestValid(changes: seq<Change>, len: nat)
    requires ChangesValid(changes, len) && changes != []
    ensures ChangesValid(changes[1..], len)
    ensures changes[1..] != [] ==> changes[0].to <= changes[1..][0].from
  {
    RestOrdered(changes);
  }

  /** The text from `pos` on after the changes: each gap up to the next change is kept and
    * each change's range is replaced by its insertion. */
  function ApplyFrom(doc: string, changes: seq<Change>, pos: nat): string
    requires ChangesValid(changes, |doc|) && pos <= |doc|
    requires changes != [] ==> pos <= changes[0].from
    decreases |changes|
  {
    if changes == [] then doc[pos..]
    else
      RestValid(changes, |doc|);
      doc[pos..changes[0].from] + changes[0].insert + ApplyFrom(doc, changes[1..], changes[0].to)
  }

  /** Applies a set of changes whose positions refer to the original document, as a
    * CodeMirror transaction does. */
  function ApplyChanges(doc: string, changes: seq<Change>): string
    requires ChangesValid(changes, |doc|)
  {
    ApplyFrom(doc, changes, 0)
  }

  /** Net growth of the text: inserted characters minus replaced ones. */
  function Growth(changes: seq<Change>): int {
    if changes == [] then 0
    else |changes[0].insert| - (changes[0].to - changes[0].from) + Growth(changes[1..])
  }

  /** The text after the changes is as long as the original plus the changes' growth. */
  lemma {:induction false} ApplyFromLength(doc: string, changes: seq<Change>, pos: nat)
    requires ChangesValid(changes, |doc|) && pos <= |doc|
    requires changes != [] ==> pos <= changes[0].from
    ensures |ApplyFrom(doc, changes, pos)| == |doc| - pos + Growth(changes)
    decreases |changes|
  {
    if changes != [] {
      RestValid(changes, |doc|);
      ApplyFromLength(doc, changes[1..], changes[0].to);
    }
  }

  /** A single change is a plain replacement. */
  lemma ApplyOne(doc: string, c: Change)
    requires c.from <= c.to <= |doc|
    ensures ChangesValid([c], |doc|)
    ensures ApplyChanges(doc, [c]) == Replace(doc, c.from, c.to, c.insert)
  {
    assert [c][1..] == [];
    assert ApplyFrom(doc, [], c.to) == doc[c.to..];
    assert doc[0..c.from] == doc[..c.from];
  }

  /** Two changes, the first ending before the second begins, replace both ranges and keep
    * the text around and between them. */
  lemma ApplyTwo(doc: string, c: Change, d: Change)
    requires c.from <= c.to <= d.from <= d.to <= |doc|
    ensures ChangesValid([c, d], |doc|)
    ensures ApplyChanges(doc, [c, d])
         == doc[..c.from] + c.insert + doc[c.to..d.from] + d.insert + doc[d.to..]
  {
    var changes := [c, d];
    assert ChangesOrdered(changes) by {
      forall i, j | 0 <= i < j < 2 ensures changes[i].to <= changes[j].from {
        assert i == 0 && j == 1;
      }
    }
    assert changes[1..] == [d] && [d][1..] == [];
    assert ApplyFrom(doc, [], d.to) == doc[d.to..];
    assert ApplyFrom(doc, [d], c.to) == doc[c.to..d.from] + d.insert + doc[d.to..];
    assert doc[0..c.from] == doc[..c.from];
  }

  /** Where position `pos` of the original document lands after the changes, walking them
    * in order: `oldBase` and `newBase` are the positions, in the old and the new text, where
    * the last change dealt with ended. With backward association (`forward` false) a
    * position inside a replaced range, or at a pure insertion point, stays before the
    * inserted text; with forward association a position strictly inside a replaced range,
    * or at a pure insertion point, moves past it, while the start of a replaced range stays
    * before it. */
  function MapFrom(pos: nat, changes: seq<Change>, oldBase: nat, newBase: nat, forward: bool): (r: nat)
    requires ChangesOrdered(changes) && oldBase <= pos
    requires changes != [] ==> oldBase <= changes[0].from
    ensures newBase <= r
    ensures changes == [] || pos < changes[0].from ==> r == newBase + (pos - oldBase)
    decreases |changes|
  {
    if changes == [] then newBase + (pos - oldBase)
    else
      var c := changes[0];
      var start := newBase + (c.from - oldBase);
      if pos < c.from then newBase + (pos - oldBase)
      else if pos == c.from && (!forward || c.from < c.to) then start
      else if pos < c.to then (if forward then start + |c.insert| else start)
      else
        RestOrdered(changes);
        MapFrom(pos, changes[1..], c.to, start + |c.insert|, forward)
  }

  /** CodeMirror's `mapPos` with the default backward association. */
  function MapPos(pos: nat, changes: seq<Change>): nat
    requires ChangesOrdered(changes)
  {
    MapFrom(pos, changes, 0, 0, false)
  }

  /** CodeMirror's `mapPos` with forward association (`assoc = 1`). */
  function MapPosForward(pos: nat, changes: seq<Change>): nat
    requires ChangesOrdered(changes)
  {
    MapFrom(pos, changes, 0, 0, true)
  }

  /** A mapped position of the old text is a position of the new one. */
  lemma {:induction false} MapFromBound(doc: string, pos: nat, changes: seq<Change>, oldBase: nat, newBase: nat, forward: bool)
    requires ChangesValid(changes, |doc|) && oldBase <= pos <= |doc|
    requires changes != [] ==> oldBase <= changes[0].from
    ensures MapFrom(pos, changes, oldBase, newBase, forward) <= newBase + |ApplyFrom(doc, changes, oldBase)|
    decreases |changes|
  {
    if changes != [] {
      var c := changes[0];
      RestValid(changes, |doc|);
      if pos >= c.to && !(pos == c.from && (!forward || c.from < c.to)) {
        MapFromBound(doc, pos, changes[1..], c.to, newBase + (c.from - oldBase) + |c.insert|, forward);
      }
    }
  }

  /** Both associations map into the new text. */
  lemma MapPosBound(doc: string, pos: nat, changes: seq<Change>)
    requires ChangesValid(changes, |doc|) && pos <= |doc|
    ensures MapPos(pos, changes) <= |ApplyChanges(doc, changes)|
    ensures MapPosForward(pos, changes) <= |ApplyChanges(doc, changes)|
  {
    MapFromBound(doc, pos, changes, 0, 0, false);
    MapFromBound(doc, pos, changes, 0, 0, true);
  }

  /** Forward association never places a position before backward association does. */
  lemma {:induction false} MapFromOrder(pos: nat, changes: seq<Change>, oldBase: nat, newBase: nat)
    requires ChangesOrdered(changes) && oldBase <= pos
    requires changes != [] ==> oldBase <= changes[0].from
    ensures MapFrom(pos, changes, oldBase, newBase, false) <= MapFrom(pos, changes, oldBase, newBase, true)
    decreases |changes|
  {
    if changes != [] {
      var c := changes[0];
      RestOrdered(changes);
      if pos >= c.to && pos != c.from {
        MapFromOrder(pos, changes[1..], c.to, newBase + (c.from - oldBase) + |c.insert|);
      }
    }
  }

  /** Mapping keeps the order of positions. */
  lemma {:induction false} MapFromMonotone(p: nat, q: nat, changes: seq<Change>, oldBase: nat, newBase: nat, forward: bool)
    requires ChangesOrdered(changes) && oldBase <= p <= q
    requires changes != [] ==> oldBase <= changes[0].from
    ensures MapFrom(p, changes, oldBase, newBase, forward) <= MapFrom(q, changes, oldBase, newBase, forward)
    decreases |changes|
  {
    if changes != [] {
      var c := changes[0];
      RestOrdered(changes);
      if p >= c.to && !(p == c.from && (!forward || c.from < c.to)) {
        MapFromMonotone(p, q, changes[1..], c.to, newBase + (c.from - oldBase) + |c.insert|, forward);
      }
    }
  }
}
