/**
 * Editor helpers for pasted and dropped images and for ordered-list indentation: the file
 * name and alt text of a saved image, recognising a local file path in dropped text,
 * directory containment, and the change sets that indent, outdent and renumber ordered
 * list items.
 */
module EditorUtils {
  import opened Wrappers
  import opened Strings
  import opened TextDoc
  import opened EditorView
  import opened ImagePath

  // ---------------------------------------------------------------------------------
  // File names and alt text

  /** The characters an image file name may keep: ASCII letters and digits, Latin-1
    * Supplement and Latin Extended letters (U+00C0 to U+024F), Hangul syllables, kana,
    * CJK unified ideographs, '.', '_' and '-'. */
  predicate FileNameChar(c: char) {
    IsAsciiLetter(c) || IsDigit(c)
    || ('\U{00C0}' <= c <= '\U{024F}') || ('\U{AC00}' <= c <= '\U{D7AF}')
    || ('\U{3040}' <= c <= '\U{30FF}') || ('\U{4E00}' <= c <= '\U{9FFF}')
    || c == '.' || c == '_' || c == '-'
  }

  /** Every character outside the allowed set becomes '-'. */
  function SanitizeChars(name: string): (r: string)
    ensures |r| == |name|
    ensures forall i :: 0 <= i < |name| ==> r[i] == if FileNameChar(name[i]) then name[i] else '-'
  {
    seq(|name|, i requires 0 <= i < |name| => if FileNameChar(name[i]) then name[i] else '-')
  }

  /** `sanitizeFileName(fileName)`; `now` is `Date.now()`, used for the name of an empty
    * input. */
  function SanitizeFileName(name: string, now: nat): string {
    var sanitized := SanitizeChars(name);
    if sanitized == "" then "image-" + NatToString(now) + ".png" else sanitized
  }

  /** A non-empty name keeps its length, keeps every allowed character in place and holds
    * allowed characters only; an empty name gets the time-stamped fallback. */
  lemma SanitizeFileNameShape(name: string, now: nat)
    ensures name != "" ==> |SanitizeFileName(name, now)| == |name|
    ensures name != "" ==> forall i :: 0 <= i < |name| ==>
      FileNameChar(SanitizeFileName(name, now)[i])
      && (FileNameChar(name[i]) ==> SanitizeFileName(name, now)[i] == name[i])
    ensures name == "" ==> SanitizeFileName(name, now) == "image-" + NatToString(now) + ".png"
  {
  }

  /** Sanitizing is idempotent: a sanitized name is left as it is. */
  lemma SanitizeTwice(name: string, now: nat, later: nat)
    requires name != ""
    ensures SanitizeFileName(SanitizeFileName(name, now), later) == SanitizeFileName(name, now)
  {
    var s := SanitizeFileName(name, now);
    assert forall i :: 0 <= i < |s| ==> FileNameChar(s[i]);
    assert SanitizeChars(s) == s;
  }

  /** `fileName.replace(/\.[^.]+$/, '')`: drops the last '.' and what follows it, when at
    * least one character follows it. */
  function DropExtension(name: string): (r: string)
    ensures |r| <= |name| && r == name[..|r|]
  {
    var dot := LastIndexOf(name, '.');
    if 0 <= dot < |name| - 1 then name[..dot] else name
  }

  /** Every occurrence of `c` removed. */
  function Remove(s: string, c: char): (r: string)
    ensures c !in r
    ensures forall x :: x in r ==> x in s
    ensures c !in s ==> r == s
  {
    if s == [] then []
    else (if s[0] == c then [] else [s[0]]) + Remove(s[1..], c)
  }

  /** `normalizeAltText(fileName)`: the name without its extension, 'image' when that is
    * empty, with every '[' and ']' removed. */
  function NormalizeAltText(name: string): string {
    var stem := DropExtension(name);
    Remove(Remove(if stem == "" then "image" else stem, '['), ']')
  }

  /** The alt text never holds a bracket, and every character of it comes from the name
    * (or from the fallback 'image'). */
  lemma NormalizeAltTextShape(name: string)
    ensures '[' !in NormalizeAltText(name) && ']' !in NormalizeAltText(name)
    ensures forall x :: x in NormalizeAltText(name) ==> x in name || x in "image"
  {
    var stem := DropExtension(name);
    forall x | x in stem ensures x in name {
      var i :| 0 <= i < |stem| && stem[i] == x;
      assert name[i] == x;
    }
  }

  /** A name with an extension and no brackets loses exactly its extension. */
  lemma NormalizeAltTextOfPlainName(base: string, ext: string)
    requires base != "" && ext != "" && '.' !in ext
    requires '[' !in base && ']' !in base
    ensures NormalizeAltText(base + "." + ext) == base
  {
    var name := base + "." + ext;
    assert name[|base|] == '.';
    assert name[|base| + 1..] == ext;
    assert DropExtension(name) == base;
  }

  // ---------------------------------------------------------------------------------
  // Dropped text and directories

  /** `/^[A-Za-z]:[\\/]/`: a drive letter, a colon and a separator. */
  predicate StartsWithDrive(v: string) {
    |v| >= 3 && IsAsciiLetter(v[0]) && v[1] == ':' && IsSep(v[2])
  }

  /** `parseFilePathFromText(text)`. The `file://` branch parses a URL, which is left to
    * `fileUrlPath`; every other trimmed text is a path when it starts with '/', with
    * '\\' or with a drive, and is not a path otherwise. */
  function ParseFilePathFromText(text: string, fileUrlPath: string -> Option<string>): (r: Option<string>)
    ensures Trim(text) == "" ==> r == None
    ensures !StartsWith(Trim(text), "file://") ==>
      (r.Some? <==> Trim(text) != "" && (StartsWith(Trim(text), "/") || StartsWith(Trim(text), "\\\\") || StartsWithDrive(Trim(text))))
    ensures !StartsWith(Trim(text), "file://") && r.Some? ==> r.value == Trim(text)
  {
    var value := Trim(text);
    if value == "" then None
    else if StartsWith(value, "file://") then fileUrlPath(value)
    else if StartsWith(value, "/") || StartsWith(value, "\\\\") || StartsWithDrive(value) then Some(value)
    else None
  }

  /** `isPathInDirectory(filePath, directoryPath)`, on POSIX-separated paths. */
  function IsPathInDirectory(filePath: string, directoryPath: string): bool {
    var path := ToPosixPath(filePath);
    var dir := ToPosixPath(directoryPath);
    if dir == "" then false
    else if path == dir then true
    else
      var normalizedDir := if EndsWith(dir, "/") then dir else dir + "/";
      StartsWith(path, normalizedDir)
  }

  /** Never inside an empty directory; always inside the directory itself; otherwise
    * inside exactly when the path continues the directory with a separator. */
  lemma IsPathInDirectoryIff(filePath: string, directoryPath: string)
    ensures directoryPath == "" ==> !IsPathInDirectory(filePath, directoryPath)
    ensures directoryPath != "" && ToPosixPath(filePath) == ToPosixPath(directoryPath) ==> IsPathInDirectory(filePath, directoryPath)
    ensures directoryPath != "" && !EndsWith(ToPosixPath(directoryPath), "/") ==>
      (IsPathInDirectory(filePath, directoryPath)
       <==> ToPosixPath(filePath) == ToPosixPath(directoryPath)
            || StartsWith(ToPosixPath(filePath), ToPosixPath(directoryPath) + "/"))
  {
  }

  /** A path inside a directory is at least as long as the directory, and starts with it. */
  lemma InsideStartsWithDir(filePath: string, directoryPath: string)
    requires IsPathInDirectory(filePath, directoryPath)
    ensures StartsWith(ToPosixPath(filePath), ToPosixPath(directoryPath))
  {
    var path, dir := ToPosixPath(filePath), ToPosixPath(directoryPath);
    if path != dir && !EndsWith(dir, "/") {
      assert path[..|dir|] == (dir + "/")[..|dir|];
    }
  }

  // ---------------------------------------------------------------------------------
  // Ordered-list markers

  /** The length of the leading run of `\s`. */
  function LeadingSpaceLen(text: string): (n: nat)
    ensures n <= |text|
  {
    if text != [] && IsSpace(text[0]) then 1 + LeadingSpaceLen(text[1..]) else 0
  }

  /** The leading run is whitespace, and the character after it is not. */
  lemma {:induction false} LeadingSpaces(text: string)
    ensures AllSpace(text[..LeadingSpaceLen(text)])
    ensures LeadingSpaceLen(text) < |text| ==> !IsSpace(text[LeadingSpaceLen(text)])
  {
    if text != [] && IsSpace(text[0]) {
      LeadingSpaces(text[1..]);
      assert text[..LeadingSpaceLen(text)] == [text[0]] + text[1..][..LeadingSpaceLen(text[1..])];
    }
  }

  /** The length of the leading run of decimal digits. */
  function DigitRunLen(text: string): (n: nat)
    ensures n <= |text| && forall i :: 0 <= i < n ==> IsDigit(text[i])
    ensures n < |text| ==> !IsDigit(text[n])
  {
    if text != [] && IsDigit(text[0]) then 1 + DigitRunLen(text[1..]) else 0
  }

  /** `orderedListMarkerRegex.exec(text)`, `/^(\s*)(\d+)([.)])(\s*)/`: the indentation
    * length (group 1) and the marker width (the rest of the match: digits, delimiter and
    * the whitespace after it). */
  function OrderedMarker(text: string): (r: Option<(nat, nat)>)
    ensures r.Some? ==> r.value.0 + r.value.1 <= |text| && r.value.1 >= 2
    ensures r.Some? ==> r.value.0 == LeadingSpaceLen(text)
  {
    var indent := LeadingSpaceLen(text);
    var digits := DigitRunLen(text[indent..]);
    var d := indent + digits;
    if digits > 0 && d < |text| && (text[d] == '.' || text[d] == ')') then
      Some((indent, digits + 1 + LeadingSpaceLen(text[d + 1..])))
    else None
  }

  /** A line that starts with digits and a delimiter after its indentation is a marker
    * line; one that does not is not. */
  lemma OrderedMarkerIff(text: string)
    ensures OrderedMarker(text).Some? <==>
      var indent := LeadingSpaceLen(text);
      var digits := DigitRunLen(text[indent..]);
      digits > 0 && indent + digits < |text| && text[indent + digits] in ".)"
  {
  }

  /** The ordered-list item around the cursor: its range in the document, the length of its
    * indentation and the width of its marker. */
  datatype ItemContext = ItemContext(from: nat, to: nat, indentLength: nat, markerWidth: nat)

  /** `getOrderedListItemContext(state, pos)`. The syntax-tree walk is a parameter: `node`
    * is the range of the nearest enclosing ordered-list item, or `None` when the walk meets
    * code first or finds no such item. The item's first line must match the marker. */
  function ItemContextOf(doc: string, node: Option<(nat, nat)>): (r: Option<ItemContext>)
    requires node.Some? ==> node.value.0 <= node.value.1 <= |doc|
    ensures r.Some? ==> node.Some? && r.value.from == node.value.0 && r.value.to == node.value.1
  {
    if node.None? then None
    else
      var (from, to) := node.value;
      match OrderedMarker(LineTextAt(doc, from))
      case None => None
      case Some((indent, width)) => Some(ItemContext(from, to, indent, width))
  }

  /** The first and last line of an item: the line of its start and the line of its last
    * character. */
  function ItemLines(doc: string, item: ItemContext): (r: (nat, nat))
    requires item.from <= item.to <= |doc|
    ensures 1 <= r.0 <= r.1 <= LineCount(doc)
  {
    var last := if item.to - 1 > item.from then item.to - 1 else item.from;
    LineBounds(doc, item.from);
    LineBounds(doc, last);
    LineAtMonotone(doc, item.from, last);
    (LineAt(doc, item.from), LineAt(doc, last))
  }

  // ---------------------------------------------------------------------------------
  // Indent and outdent change sets

  /** The bounds `(from, to)` of lines `first` to `last` (none when `last < first`). */
  function LineSpans(doc: string, first: nat, last: nat): (r: seq<(nat, nat)>)
    requires 1 <= first && last <= LineCount(doc)
    ensures |r| == if last < first then 0 else last - first + 1
    ensures SpansWithin(doc, r)
  {
    if last < first then [] else LineSpans(doc, first, last - 1) + [(LineFrom(doc, last), LineTo(doc, last))]
  }

  /** The span of line `n`. */
  lemma {:induction false} LineSpanAt(doc: string, first: nat, last: nat, n: nat)
    requires 1 <= first <= n <= last <= LineCount(doc)
    ensures LineSpans(doc, first, last)[n - first] == (LineFrom(doc, n), LineTo(doc, n))
  {
    if n < last {
      LineSpanAt(doc, first, last - 1, n);
    }
  }

  /** `state.doc.line(n)` for a line of the item: its bounds, read as the span of line `n`. */
  method LineSpan(doc: string, first: nat, last: nat, n: nat) returns (from: nat, to: nat)
    requires 1 <= first <= n <= last <= LineCount(doc)
    ensures n - first < |LineSpans(doc, first, last)| && (from, to) == LineSpans(doc, first, last)[n - first]
  {
    from, to := LineFrom(doc, n), LineTo(doc, n);
    LineSpanAt(doc, first, last, n);
  }

  /** Every span lies in the document. */
  predicate SpansWithin(doc: string, spans: seq<(nat, nat)>) {
    forall k :: 0 <= k < |spans| ==> spans[k].0 <= spans[k].1 <= |doc|
  }

  /** Spans lie in the document, in order, each ending before the next begins. */
  predicate SpansOrdered(doc: string, spans: seq<(nat, nat)>) {
    SpansWithin(doc, spans) && forall j, k :: 0 <= j < k < |spans| ==> spans[j].1 < spans[k].0
  }

  /** Lines are ordered spans. */
  lemma LineSpansOrdered(doc: string, first: nat, last: nat)
    requires 1 <= first <= last <= LineCount(doc)
    ensures SpansOrdered(doc, LineSpans(doc, first, last))
  {
    var spans := LineSpans(doc, first, last);
    forall j, k | 0 <= j < k < |spans| ensures spans[j].1 < spans[k].0 {
      LineSpansPair(doc, first, last, first + j, first + k);
    }
  }

  /** An earlier line's span ends before a later one's begins. */
  lemma LineSpansPair(doc: string, first: nat, last: nat, p: nat, q: nat)
    requires 1 <= first <= p < q <= last <= LineCount(doc)
    ensures LineSpans(doc, first, last)[p - first].1 < LineSpans(doc, first, last)[q - first].0
  {
    LineSpanAt(doc, first, last, p);
    LineSpanAt(doc, first, last, q);
    LinesOrdered(doc, p, q);
  }

  /** The spans of an item's lines, from the line of its start to the line of its last
    * character; the first is the line holding the item's start. */
  function ItemSpans(doc: string, item: ItemContext): (r: seq<(nat, nat)>)
    requires item.from <= item.to <= |doc|
    ensures SpansOrdered(doc, r) && |r| >= 1
    ensures doc[r[0].0..r[0].1] == LineTextAt(doc, item.from)
  {
    var (first, last) := ItemLines(doc, item);
    LineSpansOrdered(doc, first, last);
    LineSpanAt(doc, first, last, first);
    LineSpans(doc, first, last)
  }

  /** The changes indenting each span: `size` spaces inserted at its start. */
  function IndentChanges(spans: seq<(nat, nat)>, size: nat): (r: seq<Change>)
    ensures |r| == |spans|
  {
    seq(|spans|, k requires 0 <= k < |spans| => Change(spans[k].0, spans[k].0, Repeat(' ', size)))
  }

  /** Every indent change inserts exactly `size` spaces, and nothing else, at the start of
    * its own line, one change per line in line order; together they form a valid change
    * set. */
  lemma IndentChangesShape(doc: string, spans: seq<(nat, nat)>, size: nat)
    requires SpansOrdered(doc, spans)
    ensures ChangesValid(IndentChanges(spans, size), |doc|)
    ensures forall k :: 0 <= k < |spans| ==>
      var c := IndentChanges(spans, size)[k];
      c.from == c.to == spans[k].0 && |c.insert| == size && AllSpace(c.insert)
  {
    var r := IndentChanges(spans, size);
    forall j, k | 0 <= j < k < |r| ensures r[j].to <= r[k].from {
      assert spans[j].0 <= spans[j].1 < spans[k].0;
    }
  }

  /** `buildIndentedListItemChanges(state, itemRange, indentSize)`. */
  method BuildIndentChanges(doc: string, item: ItemContext, indentSize: nat) returns (changes: seq<Change>)
    requires item.from <= item.to <= |doc|
    ensures changes == IndentChanges(ItemSpans(doc, item), indentSize)
  {
    var (fromLine, toLine) := ItemLines(doc, item);
    ghost var spans := LineSpans(doc, fromLine, toLine);
    changes := [];
    var lineNo := fromLine;
    while lineNo <= toLine
      invariant fromLine <= lineNo <= toLine + 1
      invariant changes == IndentChanges(spans[..lineNo - fromLine], indentSize)
    {
      var lineFrom, _ := LineSpan(doc, fromLine, toLine, lineNo);
      changes := changes + [Change(lineFrom, lineFrom, Repeat(' ', indentSize))];
      lineNo := lineNo + 1;
    }
    assert spans[..lineNo - fromLine] == spans;
  }

  /** The change outdenting a line `text` that starts at `lineFrom` by up to `size`: the
    * leading whitespace it removes, or nothing when the line has none. */
  function OutdentLineChange(lineFrom: nat, text: string, size: nat): (r: Option<Change>)
    ensures r.Some? ==>
      && r.value.from == lineFrom && r.value.insert == ""
      && 0 < r.value.to - r.value.from <= size && r.value.to <= lineFrom + |text|
  {
    var lead := LeadingSpaceLen(text);
    var removeLength := if size < lead then size else lead;
    if removeLength == 0 then None
    else Some(Change(lineFrom, lineFrom + removeLength, ""))
  }

  /** A line loses `min(size, its leading whitespace)` characters, all of them whitespace
    * at its start; a line without leading whitespace (or a zero size) is left alone. */
  lemma OutdentLineRemoves(lineFrom: nat, text: string, size: nat)
    ensures var lead := LeadingSpaceLen(text);
      match OutdentLineChange(lineFrom, text, size)
      case None => lead == 0 || size == 0
      case Some(c) => c.to - c.from == (if size < lead then size else lead) && AllSpace(text[..c.to - c.from])
  {
    LeadingSpaces(text);
  }

  /** No element, or the one present. */
  function AsList(o: Option<Change>): (r: seq<Change>)
    ensures |r| <= 1 && (o.Some? <==> |r| == 1) && (o.Some? ==> r[0] == o.value)
  {
    if o.Some? then [o.value] else []
  }

  /** A change after every change of a valid set extends it. */
  lemma ChangesSnoc(prev: seq<Change>, c: Change, len: nat)
    requires ChangesValid(prev, len) && c.from <= c.to <= len
    requires forall i :: 0 <= i < |prev| ==> prev[i].to <= c.from
    ensures ChangesValid(prev + [c], len)
  {
    var r := prev + [c];
    forall i, j | 0 <= i < j < |r| ensures r[i].to <= r[j].from {
      if j == |prev| {
        assert r[i] == prev[i];
      } else {
        assert r[i] == prev[i] && r[j] == prev[j];
      }
    }
  }

  /** The changes outdenting the first `n` spans by up to `size`. */
  function OutdentChanges(doc: string, spans: seq<(nat, nat)>, size: nat, n: nat): seq<Change>
    requires SpansWithin(doc, spans) && n <= |spans|
  {
    if n == 0 then []
    else
      var (from, to) := spans[n - 1];
      OutdentChanges(doc, spans, size, n - 1) + AsList(OutdentLineChange(from, doc[from..to], size))
  }

  /** The outdent changes form a valid change set, all within the first `n` spans. */
  lemma {:induction false} OutdentChangesValid(doc: string, spans: seq<(nat, nat)>, size: nat, n: nat)
    requires SpansOrdered(doc, spans) && n <= |spans|
    ensures ChangesValid(OutdentChanges(doc, spans, size, n), |doc|)
    ensures forall i :: 0 <= i < |OutdentChanges(doc, spans, size, n)| ==>
      n > 0 && OutdentChanges(doc, spans, size, n)[i].to <= spans[n - 1].1
  {
    if n > 0 {
      var (from, to) := spans[n - 1];
      var prev := OutdentChanges(doc, spans, size, n - 1);
      OutdentChangesValid(doc, spans, size, n - 1);
      assert forall i :: 0 <= i < |prev| ==> prev[i].to <= from by {
        if n > 1 {
          assert spans[n - 2].1 < spans[n - 1].0;
        }
      }
      var o := OutdentLineChange(from, doc[from..to], size);
      if o.Some? {
        ChangesSnoc(prev, o.value, |doc|);
        assert OutdentChanges(doc, spans, size, n) == prev + [o.value];
      } else {
        assert OutdentChanges(doc, spans, size, n) == prev;
      }
    }
  }

  /** The next span appends its own change, if any: the removal of `removeLength`
    * characters at its start. */
  lemma OutdentChangesStep(doc: string, spans: seq<(nat, nat)>, size: nat, n: nat, lineFrom: nat, line: string, removeLength: nat)
    requires SpansWithin(doc, spans) && n < |spans| && lineFrom == spans[n].0 && line == doc[lineFrom..spans[n].1]
    requires removeLength == var lead := LeadingSpaceLen(line); if size < lead then size else lead
    ensures removeLength == 0 ==> OutdentChanges(doc, spans, size, n + 1) == OutdentChanges(doc, spans, size, n)
    ensures removeLength != 0 ==>
      OutdentChanges(doc, spans, size, n + 1) == OutdentChanges(doc, spans, size, n) + [Change(lineFrom, lineFrom + removeLength, "")]
  {
  }

  /** Every outdent change is the change of one of the first `n` spans. */
  lemma {:induction false} OutdentChangeLine(doc: string, spans: seq<(nat, nat)>, size: nat, n: nat, i: nat) returns (k: nat)
    requires SpansWithin(doc, spans) && n <= |spans| && i < |OutdentChanges(doc, spans, size, n)|
    ensures k < n
    ensures OutdentLineChange(spans[k].0, doc[spans[k].0..spans[k].1], size) == Some(OutdentChanges(doc, spans, size, n)[i])
  {
    var prev := OutdentChanges(doc, spans, size, n - 1);
    if i < |prev| {
      assert OutdentChanges(doc, spans, size, n)[i] == prev[i];
      k := OutdentChangeLine(doc, spans, size, n - 1, i);
    } else {
      k := n - 1;
    }
  }

  /** Every one of the first `n` spans whose line has leading whitespace gets its change
    * when `size` is positive. */
  lemma {:induction false} OutdentCoversLine(doc: string, spans: seq<(nat, nat)>, size: nat, n: nat, k: nat)
    requires SpansWithin(doc, spans) && k < n <= |spans|
    requires OutdentLineChange(spans[k].0, doc[spans[k].0..spans[k].1], size).Some?
    ensures OutdentLineChange(spans[k].0, doc[spans[k].0..spans[k].1], size).value in OutdentChanges(doc, spans, size, n)
  {
    if k < n - 1 {
      OutdentCoversLine(doc, spans, size, n - 1, k);
    }
  }

  /** One pass of the outdent loop: the change for the line spanning `lineFrom..lineTo`,
    * appended when it removes something. */
  method OutdentNext(doc: string, ghost spans: seq<(nat, nat)>, n: nat, lineFrom: nat, lineTo: nat, indentSize: nat, changes: seq<Change>)
    returns (next: seq<Change>)
    requires SpansWithin(doc, spans) && n < |spans| && spans[n] == (lineFrom, lineTo)
    requires changes == OutdentChanges(doc, spans, indentSize, n)
    ensures next == OutdentChanges(doc, spans, indentSize, n + 1)
  {
    var line := doc[lineFrom..lineTo];
    var leading := LeadingSpaceLen(line);
    var removeLength := if indentSize < leading then indentSize else leading;
    OutdentChangesStep(doc, spans, indentSize, n, lineFrom, line, removeLength);
    next := changes;
    if removeLength != 0 {
      next := next + [Change(lineFrom, lineFrom + removeLength, "")];
    }
  }

  /** `buildOutdentedListItemChanges(state, itemRange, indentSize)`. */
  method BuildOutdentChanges(doc: string, item: ItemContext, indentSize: nat) returns (changes: seq<Change>)
    requires item.from <= item.to <= |doc|
    ensures changes == OutdentChanges(doc, ItemSpans(doc, item), indentSize, |ItemSpans(doc, item)|)
  {
    var (fromLine, toLine) := ItemLines(doc, item);
    changes := OutdentLines(doc, fromLine, toLine, indentSize);
  }

  /** The loop of `buildOutdentedListItemChanges` over lines `fromLine` to `toLine`. */
  method OutdentLines(doc: string, fromLine: nat, toLine: nat, indentSize: nat) returns (changes: seq<Change>)
    requires 1 <= fromLine <= toLine <= LineCount(doc)
    ensures changes == OutdentChanges(doc, LineSpans(doc, fromLine, toLine), indentSize, toLine - fromLine + 1)
  {
    ghost var spans := LineSpans(doc, fromLine, toLine);
    changes := [];
    var i := 0;
    while i < toLine - fromLine + 1
      invariant i <= toLine - fromLine + 1
      invariant changes == OutdentChanges(doc, spans, indentSize, i)
    {
      var lineFrom, lineTo := LineSpan(doc, fromLine, toLine, fromLine + i);
      changes := OutdentNext(doc, spans, i, lineFrom, lineTo, indentSize, changes);
      i := i + 1;
    }
  }
}
