/**
 * The GFM table model behind the table editor (GitHub Flavored Markdown Spec, section 4.10,
 * tables extension): cells separated by unescaped '|', '\|' and '\\' as escapes inside a
 * cell, an alignment row of ':---' / '---:' / ':---:' tokens, and edits that produce a new
 * model. Every edit in the editor clones the model before changing the clone, so each edit
 * is a function from the old model to the new one.
 */
module TableModel {
  import opened Wrappers
  import opened Strings

  datatype Alignment = Left | Center | Right

  datatype Table = Table(headers: seq<string>, alignments: seq<Alignment>, rows: seq<seq<string>>)

  /** Every row and the alignment row are as wide as the header row, which is not empty. */
  predicate Rectangular(t: Table) {
    |t.headers| >= 1 && |t.alignments| == |t.headers|
    && forall r :: 0 <= r < |t.rows| ==> |t.rows[r]| == |t.headers|
  }

  /** A cell value as the editor stores it: no whitespace at either end (so `trim` leaves
    * it as it is, see `CellOkTrim`) and on one line. */
  predicate CellOk(c: string) {
    (c == [] || (!IsSpace(c[0]) && !IsSpace(c[|c| - 1]))) && '\n' !in c
  }

  lemma CellOkTrim(c: string)
    requires CellOk(c)
    ensures Trim(c) == c
  {
    TrimOfTrimmed(c);
  }

  predicate AllCellsOk(cells: seq<string>) {
    forall i :: 0 <= i < |cells| ==> CellOk(cells[i])
  }

  /** A rectangular table whose cells are all stored values. */
  predicate Canonical(t: Table) {
    Rectangular(t) && AllCellsOk(t.headers) && forall r :: 0 <= r < |t.rows| ==> AllCellsOk(t.rows[r])
  }

  // ---------------------------------------------------------------------------------------
  // Escapes

  /** Number of consecutive backslashes at the end of `s`. */
  function TrailingBackslashes(s: string): (n: nat)
    ensures n <= |s|
  {
    if s == [] || s[|s| - 1] != '\\' then 0 else 1 + TrailingBackslashes(s[..|s| - 1])
  }

  /** The backslash run at the end of `a + b` is that of `b`, extended into `a` when `b` is
    * all backslashes. */
  lemma {:induction false} TrailingBackslashesConcat(a: string, b: string)
    ensures TrailingBackslashes(a + b) ==
      if TrailingBackslashes(b) == |b| then TrailingBackslashes(a) + |b| else TrailingBackslashes(b)
    decreases |b|
  {
    if b == [] {
      assert a + b == a;
    } else {
      assert (a + b)[..|a + b| - 1] == a + b[..|b| - 1];
      TrailingBackslashesConcat(a, b[..|b| - 1]);
    }
  }

  /** After a character that is not a backslash, the runs inside `s` do not see what came before. */
  lemma ContextFree(text: string, i: nat, k: nat)
    requires 1 <= i && i + k <= |text| && text[i - 1] != '\\'
    ensures TrailingBackslashes(text[..i + k]) == TrailingBackslashes(text[i..i + k])
  {
    assert text[..i + k] == text[..i] + text[i..i + k];
    TrailingBackslashesConcat(text[..i], text[i..i + k]);
  }

  /** `isEscaped(text, index)`: the character at `index` follows an odd run of backslashes. */
  predicate IsEscaped(text: string, index: nat)
    requires index <= |text|
  {
    TrailingBackslashes(text[..index]) % 2 == 1
  }

  /** The backwards scan of `isEscaped`. */
  method IsEscapedScan(text: string, index: nat) returns (b: bool)
    requires index <= |text|
    ensures b == IsEscaped(text, index)
  {
    var slashCount := 0;
    var scan: int := index - 1;
    while scan >= 0 && text[scan] == '\\'
      invariant -1 <= scan < index
      invariant slashCount == index - 1 - scan
      invariant TrailingBackslashes(text[..index]) == slashCount + TrailingBackslashes(text[..scan + 1])
      decreases scan
    {
      assert text[..scan + 1][..scan] == text[..scan];
      slashCount := slashCount + 1;
      scan := scan - 1;
    }
    b := slashCount % 2 == 1;
  }

  function EscapeChar(c: char): (r: string)
    ensures |r| >= 1 && r[|r| - 1] == c && (|r| == 1 || r[0] == '\\')
  {
    if c == '\\' then "\\\\" else if c == '|' then "\\|" else [c]
  }

  /** `escapeCell`: every backslash and pipe gets a backslash in front. */
  function Escape(cell: string): string {
    if cell == [] then [] else EscapeChar(cell[0]) + Escape(cell[1..])
  }

  /** `decodeEscapedCell`: '\\' and '\|' stand for the second character; any other backslash
    * is kept as it is. */
  function Decode(cell: string): string {
    if cell == [] then []
    else if cell[0] == '\\' && |cell| > 1 && (cell[1] == '\\' || cell[1] == '|') then [cell[1]] + Decode(cell[2..])
    else [cell[0]] + Decode(cell[1..])
  }

  lemma {:induction false} EscapeAppend(a: string, b: string)
    ensures Escape(a + b) == Escape(a) + Escape(b)
  {
    if a != [] {
      assert (a + b)[1..] == a[1..] + b;
      EscapeAppend(a[1..], b);
    } else {
      assert a + b == b;
    }
  }

  /** The loop of `escapeCell`. */
  method EscapeCell(cell: string) returns (escaped: string)
    ensures escaped == Escape(cell)
  {
    escaped := "";
    var index := 0;
    while index < |cell|
      invariant 0 <= index <= |cell|
      invariant escaped == Escape(cell[..index])
    {
      var c := cell[index];
      assert cell[..index + 1] == cell[..index] + [c];
      EscapeAppend(cell[..index], [c]);
      if c == '\\' {
        escaped := escaped + "\\\\";
      } else if c == '|' {
        escaped := escaped + "\\|";
      } else {
        escaped := escaped + [c];
      }
      index := index + 1;
    }
    assert cell[..index] == cell;
  }

  /** The loop of `decodeEscapedCell`, which steps over the escaped character. */
  method DecodeEscapedCell(cell: string) returns (decoded: string)
    ensures decoded == Decode(cell)
  {
    decoded := "";
    var index := 0;
    while index < |cell|
      invariant 0 <= index <= |cell|
      invariant decoded + Decode(cell[index..]) == Decode(cell)
    {
      var c := cell[index];
      DecodeAt(cell, index);
      if c == '\\' && index + 1 < |cell| && (cell[index + 1] == '\\' || cell[index + 1] == '|') {
        ConcatAssoc(decoded, [cell[index + 1]], Decode(cell[index + 2..]));
        decoded := decoded + [cell[index + 1]];
        index := index + 2;
      } else {
        ConcatAssoc(decoded, [c], Decode(cell[index + 1..]));
        decoded := decoded + [c];
        index := index + 1;
      }
    }
    assert cell[index..] == [];
  }

  /** Decoding from index `i` takes one escape pair or one character. */
  lemma DecodeAt(cell: string, i: nat)
    requires i < |cell|
    ensures var pair := cell[i] == '\\' && i + 1 < |cell| && (cell[i + 1] == '\\' || cell[i + 1] == '|');
      Decode(cell[i..]) == if pair then [cell[i + 1]] + Decode(cell[i + 2..]) else [cell[i]] + Decode(cell[i + 1..])
  {
    assert cell[i..][1..] == cell[i + 1..];
    if i + 1 < |cell| {
      assert cell[i..][2..] == cell[i + 2..];
    }
  }

  lemma ConcatAssoc<T>(a: seq<T>, b: seq<T>, c: seq<T>)
    ensures a + b + c == a + (b + c)
  {
  }

  /** Decoding undoes escaping, for every string. */
  lemma {:induction false} DecodeEscape(cell: string)
    ensures Decode(Escape(cell)) == cell
  {
    if cell != [] {
      DecodeEscape(cell[1..]);
      var x := EscapeChar(cell[0]);
      var e := x + Escape(cell[1..]);
      if |x| == 2 {
        assert e[2..] == Escape(cell[1..]);
      } else {
        assert e[1..] == Escape(cell[1..]);
      }
      assert cell == [cell[0]] + cell[1..];
    }
  }

  /** An even run in front does not change the parity of the run at the end. */
  lemma EvenPrefixParity(x: string, y: string)
    requires TrailingBackslashes(x) % 2 == 0
    ensures TrailingBackslashes(x + y) % 2 == TrailingBackslashes(y) % 2
  {
    TrailingBackslashesConcat(x, y);
  }

  /** In an escaped cell every pipe is escaped, and the cell ends in an even backslash run. */
  lemma {:induction false} EscapeGuardsPipes(cell: string)
    ensures TrailingBackslashes(Escape(cell)) % 2 == 0
    ensures forall k :: 0 <= k < |Escape(cell)| && Escape(cell)[k] == '|' ==>
      TrailingBackslashes(Escape(cell)[..k]) % 2 == 1
  {
    if cell != [] {
      EscapeGuardsPipes(cell[1..]);
      var x := EscapeChar(cell[0]);
      var rest := Escape(cell[1..]);
      var e := x + rest;
      assert e == Escape(cell);
      EscapeCharEven(cell[0]);
      EvenPrefixParity(x, rest);
      forall k | 0 <= k < |e| && e[k] == '|' ensures TrailingBackslashes(e[..k]) % 2 == 1 {
        EscapedPipe(cell[0], rest, k);
      }
    }
  }

  /** An escaped character ends in an even backslash run. */
  lemma EscapeCharEven(c: char)
    ensures TrailingBackslashes(EscapeChar(c)) % 2 == 0
  {
    var x := EscapeChar(c);
    if |x| == 2 {
      assert x[..1] == "\\";
    }
  }

  /** A pipe in `EscapeChar(c) + rest` is escaped when every pipe of `rest` is. */
  lemma EscapedPipe(c: char, rest: string, k: nat)
    requires forall k :: 0 <= k < |rest| && rest[k] == '|' ==> TrailingBackslashes(rest[..k]) % 2 == 1
    requires k < |EscapeChar(c) + rest| && (EscapeChar(c) + rest)[k] == '|'
    ensures TrailingBackslashes((EscapeChar(c) + rest)[..k]) % 2 == 1
  {
    var x := EscapeChar(c);
    var e := x + rest;
    if k < |x| {
      assert x == "\\|" && k == 1;
      assert e[..1] == "\\";
    } else {
      EscapeCharEven(c);
      assert e[..k] == x + rest[..k - |x|];
      assert rest[k - |x|] == '|';
      EvenPrefixParity(x, rest[..k - |x|]);
    }
  }

  /** A character of an escaped cell is a character of the cell or an added backslash. */
  lemma {:induction false} EscapeChars(cell: string)
    ensures forall k :: 0 <= k < |Escape(cell)| ==> Escape(cell)[k] == '\\' || Escape(cell)[k] in cell
  {
    if cell != [] {
      EscapeChars(cell[1..]);
      var x := EscapeChar(cell[0]);
      forall k | 0 <= k < |Escape(cell)| ensures Escape(cell)[k] == '\\' || Escape(cell)[k] in cell {
        if k >= |x| {
          assert Escape(cell)[k] == Escape(cell[1..])[k - |x|];
        }
      }
    }
  }

  /** An escaped cell starts with the cell's first character or a backslash, and ends with
    * its last character. */
  lemma {:induction false} EscapeEnds(cell: string)
    requires cell != []
    ensures Escape(cell) != []
    ensures Escape(cell)[0] == '\\' || Escape(cell)[0] == cell[0]
    ensures Escape(cell)[|Escape(cell)| - 1] == cell[|cell| - 1]
  {
    if |cell| > 1 {
      EscapeEnds(cell[1..]);
    }
  }

  /** Text with neither backslashes nor pipes is its own escape. */
  lemma {:induction false} EscapePlain(cell: string)
    requires '\\' !in cell && '|' !in cell
    ensures Escape(cell) == cell
  {
    if cell != [] {
      EscapePlain(cell[1..]);
      assert cell == [cell[0]] + cell[1..];
    }
  }

  // ---------------------------------------------------------------------------------------
  // Splitting a row at unescaped pipes

  /** The loop of `splitByUnescapedPipe` from index `i`, with the current cell
    * `text[start..i]` and the cells finished so far. */
  function SplitFrom(text: string, i: nat, start: nat, cells: seq<string>): (r: seq<string>)
    requires start <= i <= |text|
    ensures |r| >= |cells| + 1
    decreases |text| - i
  {
    if i == |text| then cells + [text[start..]]
    else if text[i] == '|' && !IsEscaped(text, i) then SplitFrom(text, i + 1, i + 1, cells + [text[start..i]])
    else SplitFrom(text, i + 1, start, cells)
  }

  lemma {:induction false} SplitFromAcc(text: string, i: nat, start: nat, cells: seq<string>)
    requires start <= i <= |text|
    ensures SplitFrom(text, i, start, cells) == cells + SplitFrom(text, i, start, [])
    decreases |text| - i
  {
    if i < |text| {
      if text[i] == '|' && !IsEscaped(text, i) {
        SplitFromAcc(text, i + 1, i + 1, cells + [text[start..i]]);
        SplitFromAcc(text, i + 1, i + 1, [text[start..i]]);
        assert [] + [text[start..i]] == [text[start..i]];
      } else {
        SplitFromAcc(text, i + 1, start, cells);
      }
    }
  }

  function SplitByUnescapedPipe(text: string): seq<string> {
    SplitFrom(text, 0, 0, [])
  }

  /** The cells of a split are the text between the unescaped pipes: joining them with '|'
    * gives the text back. */
  lemma {:induction false} JoinSplitFrom(text: string, i: nat, start: nat)
    requires start <= i <= |text|
    ensures Join(SplitFrom(text, i, start, []), '|') == text[start..]
    decreases |text| - i
  {
    if i < |text| {
      if text[i] == '|' && !IsEscaped(text, i) {
        JoinSplitFrom(text, i + 1, i + 1);
        SplitFromAcc(text, i + 1, i + 1, [text[start..i]]);
        var r := SplitFrom(text, i + 1, i + 1, []);
        assert [] + [text[start..i]] == [text[start..i]];
        assert SplitFrom(text, i, start, []) == [text[start..i]] + r;
        assert ([text[start..i]] + r)[1..] == r;
        assert Join([text[start..i]] + r, '|') == text[start..i] + "|" + Join(r, '|');
        assert text[start..] == text[start..i] + "|" + text[i + 1..];
      } else {
        JoinSplitFrom(text, i + 1, start);
      }
    }
  }

  lemma JoinSplitByUnescapedPipe(text: string)
    ensures Join(SplitByUnescapedPipe(text), '|') == text
  {
    JoinSplitFrom(text, 0, 0);
  }

  /** The loop of `splitByUnescapedPipe`. */
  method SplitPipes(text: string) returns (cells: seq<string>)
    ensures cells == SplitByUnescapedPipe(text)
  {
    cells := [];
    var currentCell := "";
    ghost var start := 0;
    var index := 0;
    while index < |text|
      invariant 0 <= start <= index <= |text|
      invariant currentCell == text[start..index]
      invariant SplitFrom(text, index, start, cells) == SplitByUnescapedPipe(text)
    {
      var c := text[index];
      var escaped := IsEscapedScan(text, index);
      if c == '|' && !escaped {
        cells := cells + [currentCell];
        currentCell := "";
        start := index + 1;
      } else {
        currentCell := currentCell + [c];
      }
      index := index + 1;
    }
    assert currentCell == text[start..];
    assert SplitFrom(text, index, start, cells) == cells + [currentCell];
    cells := cells + [currentCell];
  }

  /** No unescaped pipe in `[i, j)`: the loop just carries the current cell over. */
  lemma {:induction false} SplitSkip(text: string, i: nat, j: nat, start: nat)
    requires start <= i <= j <= |text|
    requires forall k :: i <= k < j ==> text[k] != '|' || IsEscaped(text, k)
    ensures SplitFrom(text, i, start, []) == SplitFrom(text, j, start, [])
    decreases j - i
  {
    if i < j {
      SplitSkip(text, i + 1, j, start);
    }
  }

  /** A segment that splits as one cell after a '|' : every pipe inside it is escaped by the
    * segment's own backslashes, and it does not end in a backslash. */
  predicate SegmentOk(s: string) {
    |s| >= 1 && s[|s| - 1] != '\\'
    && forall k :: 0 <= k < |s| && s[k] == '|' ==> TrailingBackslashes(s[..k]) % 2 == 1
  }

  /** After a non-backslash, a segment `s` followed by '|' is split off as one cell. */
  lemma FirstSegment(text: string, i: nat, s: string)
    requires 1 <= i && i + |s| < |text| && text[i - 1] != '\\' && SegmentOk(s)
    requires text[i..i + |s|] == s && text[i + |s|] == '|'
    ensures SplitFrom(text, i, i, []) == [s] + SplitFrom(text, i + |s| + 1, i + |s| + 1, [])
  {
    var e := i + |s|;
    forall k | i <= k < e ensures text[k] != '|' || IsEscaped(text, k) {
      if text[k] == '|' {
        ContextFree(text, i, k - i);
        assert text[i..k] == s[..k - i];
      }
    }
    SplitSkip(text, i, e, i);
    ContextFree(text, i, |s|);
    assert !IsEscaped(text, e);
    assert [] + [text[i..e]] == [s];
    assert SplitFrom(text, e, i, []) == SplitFrom(text, e + 1, e + 1, [s]);
    SplitFromAcc(text, e + 1, e + 1, [s]);
  }

  /** After a non-backslash, `s0|s1|...|` splits into `s0, s1, ..., ""`. */
  lemma {:induction false} SplitSegments(text: string, i: nat, segs: seq<string>)
    requires 1 <= i <= |text| && text[i - 1] != '\\'
    requires |segs| >= 1 && forall k :: 0 <= k < |segs| ==> SegmentOk(segs[k])
    requires text[i..] == Join(segs, '|') + "|"
    ensures SplitFrom(text, i, i, []) == segs + [""]
    decreases |segs|
  {
    var s := segs[0];
    var e := i + |s|;
    if |segs| == 1 {
      assert Join(segs, '|') == s;
      SegmentSlices(text, i, s, "");
      FirstSegment(text, i, s);
      assert SplitFrom(text, e + 1, e + 1, []) == [""];
      assert segs == [s];
    } else {
      var rest := Join(segs[1..], '|');
      assert Join(segs, '|') == s + "|" + rest;
      assert s + "|" + rest + "|" == s + ("|" + (rest + "|"));
      SegmentSlices(text, i, s, rest + "|");
      FirstSegment(text, i, s);
      assert forall k :: 0 <= k < |segs| - 1 ==> segs[1..][k] == segs[k + 1];
      SplitSegments(text, e + 1, segs[1..]);
      assert [s] + (segs[1..] + [""]) == segs + [""];
    }
  }

  lemma SegmentSlices(text: string, i: nat, s: string, rest: string)
    requires i <= |text| && text[i..] == s + ("|" + rest)
    ensures i + |s| < |text| && text[i..i + |s|] == s && text[i + |s|] == '|' && text[i + |s| + 1..] == rest
  {
    assert text[i..i + |s|] == text[i..][..|s|];
    assert text[i + |s| + 1..] == text[i..][|s| + 1..];
  }

  // ---------------------------------------------------------------------------------------
  // Rows

  predicate HasUnescapedTrailingPipe(text: string) {
    EndsWith(text, "|") && !IsEscaped(text, |text| - 1)
  }

  /** The pieces of a trimmed row, without the empty piece before a leading pipe and the
    * empty piece after an unescaped trailing pipe. */
  function RowPieces(t: string): seq<string> {
    var segs := SplitByUnescapedPipe(t);
    var segs1 := if StartsWith(t, "|") && |segs| > 0 && segs[0] == "" then segs[1..] else segs;
    if HasUnescapedTrailingPipe(t) && |segs1| > 0 && segs1[|segs1| - 1] == "" then segs1[..|segs1| - 1] else segs1
  }

  function DecodeCells(pieces: seq<string>): (r: seq<string>)
    ensures |r| == |pieces| && forall i :: 0 <= i < |pieces| ==> r[i] == Decode(Trim(pieces[i]))
  {
    seq(|pieces|, i requires 0 <= i < |pieces| => Decode(Trim(pieces[i])))
  }

  /** `parseCells`: trims the line, splits it at unescaped pipes, drops the empty pieces
    * outside the frame pipes, and trims and decodes each cell. */
  function ParseCells(line: string): seq<string> {
    DecodeCells(RowPieces(Trim(line)))
  }

  function Width(widths: seq<nat>, i: nat): nat {
    if i < |widths| then widths[i] else 0
  }

  function Segments(cells: seq<string>, widths: seq<nat>): (r: seq<string>)
    ensures |r| == |cells|
  {
    seq(|cells|, i requires 0 <= i < |cells| => " " + PadEnd(cells[i], Width(widths, i)) + " ")
  }

  /** `formatRow`: `| c0 | c1 | ... |` with each cell padded to its column width. */
  function FormatRow(cells: seq<string>, widths: seq<nat>): string {
    "|" + Join(Segments(cells, widths), '|') + "|"
  }

  function EscapeAll(cells: seq<string>): (r: seq<string>)
    ensures |r| == |cells| && forall i :: 0 <= i < |cells| ==> r[i] == Escape(cells[i])
  {
    seq(|cells|, i requires 0 <= i < |cells| => Escape(cells[i]))
  }

  lemma {:induction false} TrimEndPadding(e: string, n: nat)
    requires e == [] || !IsSpace(e[|e| - 1])
    ensures TrimEnd(e + Repeat(' ', n)) == e
    decreases n
  {
    if n > 0 {
      var x := e + Repeat(' ', n);
      assert x[|x| - 1] == ' ';
      assert x[..|x| - 1] == e + Repeat(' ', n - 1);
      assert TrimEnd(x) == TrimEnd(x[..|x| - 1]);
      TrimEndPadding(e, n - 1);
    } else {
      assert e + Repeat(' ', n) == e;
    }
  }

  lemma TrimStartNoSpace(s: string)
    requires s != [] && !IsSpace(s[0])
    ensures TrimStart(s) == s
  {
  }

  /** Trimming a formatted segment gives back the escaped cell. */
  lemma TrimSegment(e: string, w: nat)
    requires e == [] || (!IsSpace(e[0]) && !IsSpace(e[|e| - 1]))
    ensures Trim(" " + PadEnd(e, w) + " ") == e
  {
    var pad := if |e| >= w then 1 else w - |e| + 1;
    assert PadEnd(e, w) + " " == e + Repeat(' ', pad);
    assert " " + PadEnd(e, w) + " " == " " + (e + Repeat(' ', pad));
    PaddedTrim(e, pad);
  }

  lemma PaddedTrim(e: string, n: nat)
    requires e == [] || (!IsSpace(e[0]) && !IsSpace(e[|e| - 1]))
    ensures Trim(" " + (e + Repeat(' ', n))) == e
  {
    var s := " " + (e + Repeat(' ', n));
    assert s[1..] == e + Repeat(' ', n);
    if e == [] {
      assert AllSpace(s);
      TrimEmptyIff(s);
    } else {
      TrimStartNoSpace(s[1..]);
      assert TrimStart(s) == s[1..];
      TrimEndPadding(e, n);
    }
  }

  /** The escaped form of a stored cell has no whitespace at either end and no newline. */
  lemma EscapedCellShape(c: string)
    requires CellOk(c)
    ensures var e := Escape(c); (e == [] || (!IsSpace(e[0]) && !IsSpace(e[|e| - 1]))) && '\n' !in e
  {
    EscapeChars(c);
    if c != [] {
      EscapeEnds(c);
    }
  }

  /** A formatted segment holding an escaped cell splits as one cell. */
  lemma SegmentOfEscaped(c: string, w: nat)
    ensures SegmentOk(" " + PadEnd(Escape(c), w) + " ")
  {
    var e := Escape(c);
    var n := if |e| >= w then 0 else w - |e|;
    EscapeGuardsPipes(c);
    assert PadEnd(e, w) == e + Repeat(' ', n);
    PaddedSegmentOk(e, n);
  }

  /** Spaces around text whose pipes are all escaped give a segment that splits as one cell. */
  lemma PaddedSegmentOk(e: string, n: nat)
    requires forall k :: 0 <= k < |e| && e[k] == '|' ==> TrailingBackslashes(e[..k]) % 2 == 1
    ensures SegmentOk(" " + (e + Repeat(' ', n)) + " ")
  {
    var s := " " + (e + Repeat(' ', n)) + " ";
    forall k | 0 <= k < |s| && s[k] == '|' ensures TrailingBackslashes(s[..k]) % 2 == 1 {
      PipeInSegment(e, n, k);
    }
  }

  lemma PipeInSegment(e: string, n: nat, k: nat)
    requires forall k :: 0 <= k < |e| && e[k] == '|' ==> TrailingBackslashes(e[..k]) % 2 == 1
    requires var s := " " + (e + Repeat(' ', n)) + " "; k < |s| && s[k] == '|'
    ensures TrailingBackslashes((" " + (e + Repeat(' ', n)) + " ")[..k]) % 2 == 1
  {
    var s := " " + (e + Repeat(' ', n)) + " ";
    assert 1 <= k <= |e|;
    assert s[..k] == " " + e[..k - 1];
    assert e[k - 1] == '|';
    TrailingBackslashesConcat(" ", e[..k - 1]);
  }

  /** A row `|s0|s1|...|` of segments that split as single cells splits into them. */
  lemma FormattedSplit(segs: seq<string>, line: string)
    requires |segs| >= 1
    requires forall k :: 0 <= k < |segs| ==> SegmentOk(segs[k])
    requires line == "|" + Join(segs, '|') + "|"
    ensures SplitByUnescapedPipe(line) == [""] + segs + [""]
  {
    FramedTail(line, Join(segs, '|'));
    SplitSegments(line, 1, segs);
    FramedSplit(line, segs);
  }

  lemma FramedTail(line: string, j: string)
    requires line == "|" + j + "|"
    ensures |line| >= 2 && line[0] == '|' && line[1..] == j + "|"
  {
  }

  lemma FramedSplit(line: string, segs: seq<string>)
    requires |line| >= 1 && line[0] == '|' && SplitFrom(line, 1, 1, []) == segs + [""]
    ensures SplitByUnescapedPipe(line) == [""] + segs + [""]
  {
    LeadingPipe(line);
    SplitFromAcc(line, 1, 1, [""]);
  }

  /** A pipe at index 0 is never escaped: it closes an empty first piece. */
  lemma LeadingPipe(line: string)
    requires |line| >= 1 && line[0] == '|'
    ensures SplitFrom(line, 0, 0, []) == SplitFrom(line, 1, 1, [""])
  {
    assert !IsEscaped(line, 0);
    assert [] + [line[0..0]] == [""];
  }

  /** The same row is its own trim, starts with a pipe and ends in an unescaped one. */
  lemma FormattedEnds(segs: seq<string>, line: string)
    requires |segs| >= 1
    requires forall k :: 0 <= k < |segs| ==> |segs[k]| >= 1 && segs[k][|segs[k]| - 1] == ' '
    requires line == "|" + Join(segs, '|') + "|"
    ensures Trim(line) == line && StartsWith(line, "|") && HasUnescapedTrailingPipe(line)
  {
    assert line[0] == '|' && line[|line| - 1] == '|';
    TrimOfTrimmed(line);
    JoinLastSegment(segs);
    assert line[..|line| - 1] == "|" + Join(segs, '|');
    assert line[|line| - 2] == ' ';
  }

  /** On a line framed by pipes the pieces are exactly the ones between them. */
  lemma FramedPieces(line: string, segs: seq<string>)
    requires StartsWith(line, "|") && HasUnescapedTrailingPipe(line)
    requires SplitByUnescapedPipe(line) == [""] + segs + [""]
    ensures RowPieces(line) == segs
  {
    var split := [""] + segs + [""];
    assert split[1..] == segs + [""];
    assert (segs + [""])[..|segs|] == segs;
  }

  /** Trimming and decoding the segment of an escaped stored cell gives the cell back. */
  lemma DecodeSegment(c: string, w: nat)
    requires CellOk(c)
    ensures Decode(Trim(" " + PadEnd(Escape(c), w) + " ")) == c
  {
    EscapedCellShape(c);
    TrimSegment(Escape(c), w);
    DecodeEscape(c);
  }

  lemma DecodeSegments(cells: seq<string>, widths: seq<nat>)
    requires AllCellsOk(cells)
    ensures DecodeCells(Segments(EscapeAll(cells), widths)) == cells
  {
    var esc := EscapeAll(cells);
    var segs := Segments(esc, widths);
    forall k | 0 <= k < |segs| ensures Decode(Trim(segs[k])) == cells[k] {
      DecodeSegment(cells[k], Width(widths, k));
    }
  }

  /** `parseCells` reads a formatted row of escaped stored cells back as those cells. */
  lemma ParseFormatRow(cells: seq<string>, widths: seq<nat>)
    requires |cells| >= 1 && AllCellsOk(cells)
    ensures ParseCells(FormatRow(EscapeAll(cells), widths)) == cells
  {
    var esc := EscapeAll(cells);
    var segs := Segments(esc, widths);
    forall k | 0 <= k < |segs| ensures SegmentOk(segs[k]) && segs[k][|segs[k]| - 1] == ' ' {
      SegmentOfEscaped(cells[k], Width(widths, k));
    }
    var line := FormatRow(esc, widths);
    FormattedSplit(segs, line);
    FormattedEnds(segs, line);
    FramedPieces(line, segs);
    DecodeSegments(cells, widths);
  }

  /** A join of segments that end in a space ends in a space. */
  lemma {:induction false} JoinLastSegment(segs: seq<string>)
    requires |segs| >= 1 && forall k :: 0 <= k < |segs| ==> |segs[k]| >= 1 && segs[k][|segs[k]| - 1] == ' '
    ensures |Join(segs, '|')| >= 1 && Join(segs, '|')[|Join(segs, '|')| - 1] == ' '
  {
    if |segs| > 1 {
      JoinLastSegment(segs[1..]);
    }
  }

  // ---------------------------------------------------------------------------------------
  // Alignment tokens and cell values

  /** `parseAlignmentToken`: colons at both ends mean centre, a trailing colon alone means
    * right, anything else left. */
  function ParseAlignment(token: string): Alignment {
    var t := Trim(token);
    if StartsWith(t, ":") && EndsWith(t, ":") then Center
    else if EndsWith(t, ":") then Right
    else Left
  }

  /** `buildAlignmentToken`. */
  function BuildAlignment(a: Alignment): string {
    match a
    case Center => ":---:"
    case Right => "---:"
    case Left => ":---"
  }

  /** Each alignment survives being written as a token and read back. */
  lemma ParseBuildAlignment(a: Alignment)
    ensures ParseAlignment(BuildAlignment(a)) == a
  {
    var tok := BuildAlignment(a);
    TrimOfTrimmed(tok);
    assert EndsWith(tok, ":") <==> a != Left by {
      assert tok[|tok| - 1..] == [tok[|tok| - 1]];
    }
    assert StartsWith(tok, ":") <==> a != Right by {
      assert tok[..1] == [tok[0]];
    }
  }

  /** A token is a stored cell value without backslashes or pipes. */
  lemma AlignmentTokenShape(a: Alignment)
    ensures CellOk(BuildAlignment(a)) && '\\' !in BuildAlignment(a) && '|' !in BuildAlignment(a)
  {
  }

  /** `replace(/\s+/g, ' ')`: every run of whitespace becomes one space. `inRun` says that
    * the character before `s` was whitespace, so a run continuing here adds nothing. */
  function CollapseSpaces(s: string, inRun: bool): string {
    if s == [] then []
    else if !IsSpace(s[0]) then [s[0]] + CollapseSpaces(s[1..], false)
    else if inRun then CollapseSpaces(s[1..], true)
    else " " + CollapseSpaces(s[1..], true)
  }

  /** The only whitespace left after collapsing is the plain space. */
  lemma {:induction false} CollapseSpacesShape(s: string, inRun: bool)
    ensures forall i :: 0 <= i < |CollapseSpaces(s, inRun)| && IsSpace(CollapseSpaces(s, inRun)[i]) ==>
      CollapseSpaces(s, inRun)[i] == ' '
  {
    if s != [] {
      CollapseSpacesShape(s[1..], IsSpace(s[0]));
    }
  }

  /** `normalizeCellValue` as tableModel.ts writes it: collapse, then `trim`. */
  function TrimCollapsed(value: string): string {
    Trim(CollapseSpaces(value, false))
  }

  /** `normalizeCellValue` in one pass: leading whitespace is dropped, and a run of
    * whitespace after the first kept character becomes one pending space, written only
    * when another kept character follows. */
  function NormalizeCellValue(value: string): string {
    NormalizeFrom(value, false, false)
  }

  function NormalizeFrom(s: string, pending: bool, started: bool): string {
    if s == [] then []
    else if IsSpace(s[0]) then NormalizeFrom(s[1..], started, started)
    else (if pending then " " else "") + [s[0]] + NormalizeFrom(s[1..], false, true)
  }

  /** The one-pass normaliser computes exactly `trim` of the collapsed text. */
  lemma NormalizeMatchesSource(value: string)
    ensures NormalizeCellValue(value) == TrimCollapsed(value)
  {
    var c := CollapseSpaces(value, false);
    var u := TrimStart(value);
    calc {
      NormalizeCellValue(value);
      { SkipLeading(value); }
      NormalizeFrom(u, false, true);
      { NormalizeStarted(u, false); assert "" + CollapseSpaces(u, false) == CollapseSpaces(u, false); }
      TrimEnd(CollapseSpaces(u, false));
      { TrimStartCollapse(value, false); }
      TrimEnd(TrimStart(c));
    }
  }

  /** Trimming the start of a collapsed text is collapsing the trimmed text. */
  lemma {:induction false} TrimStartCollapse(s: string, inRun: bool)
    ensures TrimStart(CollapseSpaces(s, inRun)) == CollapseSpaces(TrimStart(s), false)
  {
    if s != [] && IsSpace(s[0]) {
      TrimStartCollapse(s[1..], true);
      var c := CollapseSpaces(s[1..], true);
      if !inRun {
        assert (" " + c)[1..] == c;
      }
    }
  }

  /** Before the first kept character, whitespace is skipped. */
  lemma {:induction false} SkipLeading(s: string)
    ensures NormalizeFrom(s, false, false) == NormalizeFrom(TrimStart(s), false, true)
  {
    if s != [] && IsSpace(s[0]) {
      SkipLeading(s[1..]);
    }
  }

  /** After the first kept character, the normaliser is `trimEnd` of the collapsed rest,
    * with the pending space in front. */
  lemma {:induction false} NormalizeStarted(u: string, pending: bool)
    ensures NormalizeFrom(u, pending, true) == TrimEnd((if pending then " " else "") + CollapseSpaces(u, pending))
  {
    var pre: string := if pending then " " else "";
    if u == [] {
      assert pre + [] == pre;
    } else if IsSpace(u[0]) {
      calc {
        NormalizeFrom(u, pending, true);
        NormalizeFrom(u[1..], true, true);
        { NormalizeStarted(u[1..], true); }
        TrimEnd(" " + CollapseSpaces(u[1..], true));
        { assert pre + CollapseSpaces(u, pending) == " " + CollapseSpaces(u[1..], true); }
        TrimEnd(pre + CollapseSpaces(u, pending));
      }
    } else {
      var rest := CollapseSpaces(u[1..], false);
      calc {
        NormalizeFrom(u, pending, true);
        pre + [u[0]] + NormalizeFrom(u[1..], false, true);
        { NormalizeStarted(u[1..], false); assert "" + rest == rest; }
        (pre + [u[0]]) + TrimEnd(rest);
        { TrimEndAfterKept(pre + [u[0]], rest); }
        TrimEnd((pre + [u[0]]) + rest);
        { assert pre + CollapseSpaces(u, pending) == (pre + [u[0]]) + rest; }
        TrimEnd(pre + CollapseSpaces(u, pending));
      }
    }
  }

  /** `trimEnd` only looks past a kept last character. */
  lemma {:induction false} TrimEndAfterKept(a: string, b: string)
    requires a != [] && !IsSpace(a[|a| - 1])
    ensures TrimEnd(a + b) == a + TrimEnd(b)
    decreases |b|
  {
    if b == [] {
      assert a + b == a;
    } else if IsSpace(b[|b| - 1]) {
      assert (a + b)[..|a + b| - 1] == a + b[..|b| - 1];
      TrimEndAfterKept(a, b[..|b| - 1]);
    }
  }

  /** A normalised value is a stored cell value whose only whitespace is the plain space. */
  lemma NormalizeCellValueShape(value: string)
    ensures CellOk(NormalizeCellValue(value))
    ensures forall i :: 0 <= i < |NormalizeCellValue(value)| && IsSpace(NormalizeCellValue(value)[i]) ==>
      NormalizeCellValue(value)[i] == ' '
  {
    NormalizeMatchesSource(value);
    var c := CollapseSpaces(value, false);
    CollapseSpacesShape(value, false);
    var r := Trim(c);
    var k := TrimSlice(c);
    forall i | 0 <= i < |r| ensures IsSpace(r[i]) ==> r[i] == ' ' {
      assert r[i] == c[k + i];
    }
    assert '\n' !in r by {
      forall i | 0 <= i < |r| ensures r[i] != '\n' {
        assert IsSpace('\n');
      }
    }
  }

  // ---------------------------------------------------------------------------------------
  // Whole tables

  function Max(a: int, b: int): int {
    if a >= b then a else b
  }

  /** The lines whose trimmed text is not empty (`filter(line => line.trim())`). */
  function NonBlank(lines: seq<string>): (r: seq<string>)
    ensures |r| <= |lines|
    ensures forall i :: 0 <= i < |r| ==> Trim(r[i]) != ""
    ensures forall x :: x in r ==> x in lines
  {
    if lines == [] then []
    else (if Trim(lines[0]) != "" then [lines[0]] else []) + NonBlank(lines[1..])
  }

  lemma {:induction false} NonBlankAll(lines: seq<string>)
    requires forall i :: 0 <= i < |lines| ==> Trim(lines[i]) != ""
    ensures NonBlank(lines) == lines
  {
    if lines != [] {
      NonBlankAll(lines[1..]);
      assert [lines[0]] + lines[1..] == lines;
    }
  }

  /** `Array.from({ length: n }, (_, i) => cells[i] ?? '')`. */
  function PadCells(cells: seq<string>, n: nat): (r: seq<string>)
    ensures |r| == n && forall i :: 0 <= i < n ==> r[i] == if i < |cells| then cells[i] else ""
  {
    seq(n, i requires 0 <= i < n => if i < |cells| then cells[i] else "")
  }

  function MaxRowLength(rows: seq<seq<string>>): (m: nat)
    ensures forall r :: 0 <= r < |rows| ==> |rows[r]| <= m
    ensures m == 0 || exists r :: 0 <= r < |rows| && |rows[r]| == m
  {
    if rows == [] then 0
    else
      var m := MaxRowLength(rows[1..]);
      if |rows[0]| >= m then |rows[0]| else m
  }

  /** `lines.map(parseCells)`. */
  function ParsedRows(lines: seq<string>): (rows: seq<seq<string>>)
    ensures |rows| == |lines| && forall i :: 0 <= i < |lines| ==> rows[i] == ParseCells(lines[i])
  {
    seq(|lines|, i requires 0 <= i < |lines| => ParseCells(lines[i]))
  }

  /** The table `parseTableModel` builds from the parsed header, alignment and body rows:
    * as many columns as the widest of them and at least one, each row padded with '' and
    * each missing alignment token read as left. */
  function BuildTable(headers: seq<string>, alignmentCells: seq<string>, body: seq<seq<string>>): (t: Table)
    ensures Rectangular(t) && |t.rows| == |body|
    ensures |headers| <= |t.headers| && t.headers[..|headers|] == headers
    ensures forall i :: |alignmentCells| <= i < |t.alignments| ==> t.alignments[i] == Left
    ensures forall b :: 0 <= b < |body| ==> |body[b]| <= |t.rows[b]| && t.rows[b][..|body[b]|] == body[b]
  {
    var n := Max(Max(|headers|, |alignmentCells|), Max(MaxRowLength(body), 1));
    assert forall b :: 0 <= b < |body| ==> |body[b]| <= n;
    assert ParseAlignment("") == Left;
    Table(
      PadCells(headers, n),
      seq(n, i requires 0 <= i < n => ParseAlignment(if i < |alignmentCells| then alignmentCells[i] else "")),
      seq(|body|, b requires 0 <= b < |body| => PadCells(body[b], n)))
  }

  /** `parseTableModel`: fewer than two non-blank lines (header and alignment row) give no
    * table; otherwise every row is padded to a common width. */
  function ParseTable(text: string): (r: Option<Table>)
    ensures r.None? <==> |NonBlank(Split(text, '\n'))| < 2
    ensures r.Some? ==> Rectangular(r.value) && |r.value.rows| == |NonBlank(Split(text, '\n'))| - 2
  {
    var lines := NonBlank(Split(text, '\n'));
    if |lines| < 2 then None
    else
      var rows := ParsedRows(lines);
      Some(BuildTable(rows[0], rows[1], rows[2..]))
  }

  /** Parsing loses no cell: the header row and every body row of the table start with the
    * cells parsed from the matching non-blank line. */
  lemma ParseTableKeepsCells(text: string)
    requires ParseTable(text).Some?
    ensures var t := ParseTable(text).value;
      var rows := ParsedRows(NonBlank(Split(text, '\n')));
      |rows[0]| <= |t.headers| && t.headers[..|rows[0]|] == rows[0]
      && forall b :: 0 <= b < |t.rows| ==> |rows[b + 2]| <= |t.rows[b]| && t.rows[b][..|rows[b + 2]|] == rows[b + 2]
  {
    var rows := ParsedRows(NonBlank(Split(text, '\n')));
    assert forall b :: 0 <= b < |rows| - 2 ==> rows[2..][b] == rows[b + 2];
  }

  function Tokens(aligns: seq<Alignment>): (r: seq<string>)
    ensures |r| == |aligns| && forall i :: 0 <= i < |aligns| ==> r[i] == BuildAlignment(aligns[i])
  {
    seq(|aligns|, i requires 0 <= i < |aligns| => BuildAlignment(aligns[i]))
  }

  /** `row[i] ?? ''`. */
  function CellOf(row: seq<string>, i: nat): string {
    if i < |row| then row[i] else ""
  }

  function MaxCellWidth(rows: seq<seq<string>>, i: nat): (m: nat)
    ensures forall r :: 0 <= r < |rows| ==> |Escape(CellOf(rows[r], i))| <= m
  {
    if rows == [] then 0
    else
      var m := MaxCellWidth(rows[1..], i);
      if |Escape(CellOf(rows[0], i))| >= m then |Escape(CellOf(rows[0], i))| else m
  }

  /** One width per header: the longest escaped cell or token of the column, at least 1. */
  function ColumnWidths(t: Table): (w: seq<nat>)
    requires |t.alignments| >= |t.headers|
    ensures |w| == |t.headers|
  {
    seq(|t.headers|, i requires 0 <= i < |t.headers| =>
      Max(Max(|Escape(t.headers[i])|, |BuildAlignment(t.alignments[i])|), Max(MaxCellWidth(t.rows, i), 1)) as nat)
  }

  /** Every column is at least one wide and as wide as its escaped header, its alignment
    * token and each of its escaped cells. */
  lemma ColumnWidthsCover(t: Table, i: nat)
    requires |t.alignments| >= |t.headers| && i < |t.headers|
    ensures var w := ColumnWidths(t)[i];
      w >= 1 && w >= |Escape(t.headers[i])| && w >= |BuildAlignment(t.alignments[i])|
      && forall r :: 0 <= r < |t.rows| ==> w >= |Escape(CellOf(t.rows[r], i))|
  {
    var m := MaxCellWidth(t.rows, i);
    assert forall r :: 0 <= r < |t.rows| ==> |Escape(CellOf(t.rows[r], i))| <= m;
  }

  /** The escaped cells of serialised line `k`: the headers, the alignment tokens, then
    * the body rows. */
  function LineCells(t: Table, k: nat): seq<string>
    requires k < |t.rows| + 2
  {
    if k == 0 then EscapeAll(t.headers)
    else if k == 1 then Tokens(t.alignments)
    else EscapeAll(t.rows[k - 2])
  }

  /** The lines `serializeTableModel` joins: header row, alignment row, one line per body row.
    * The alignment row is indexed by header, so it needs a token for every header. */
  function SerializeLines(t: Table): (lines: seq<string>)
    requires |t.alignments| >= |t.headers|
    ensures |lines| == |t.rows| + 2
  {
    var w := ColumnWidths(t);
    seq(|t.rows| + 2, k requires 0 <= k < |t.rows| + 2 => FormatRow(LineCells(t, k), w))
  }

  /** `serializeTableModel`. */
  function SerializeTable(t: Table): string
    requires |t.alignments| >= |t.headers|
  {
    Join(SerializeLines(t), '\n')
  }

  lemma {:induction false} JoinExcludes(parts: seq<string>, d: char, c: char)
    requires c != d && forall i :: 0 <= i < |parts| ==> c !in parts[i]
    ensures c !in Join(parts, d)
  {
    if |parts| > 1 {
      JoinExcludes(parts[1..], d, c);
    }
  }

  /** A formatted row of newline-free cells is one non-blank line. */
  lemma FormatRowLine(cells: seq<string>, widths: seq<nat>)
    requires forall i :: 0 <= i < |cells| ==> '\n' !in cells[i]
    ensures '\n' !in FormatRow(cells, widths) && Trim(FormatRow(cells, widths)) != ""
  {
    var segs := Segments(cells, widths);
    forall i | 0 <= i < |segs| ensures '\n' !in segs[i] {
      PadEndExcludes(cells[i], Width(widths, i), '\n');
      assert segs[i] == " " + PadEnd(cells[i], Width(widths, i)) + " ";
    }
    JoinExcludes(segs, '|', '\n');
    var j := Join(segs, '|');
    var line := FormatRow(cells, widths);
    assert line == "|" + j + "|";
    assert '\n' !in "|" + j + "|";
    assert line[0] == '|' && line[|line| - 1] == '|';
    TrimOfTrimmed(line);
  }

  /** Serialising a canonical table and parsing the text gives the same table back, escaped
    * pipes and backslashes included. */
  lemma ParseSerialize(t: Table)
    requires Canonical(t)
    ensures ParseTable(SerializeTable(t)) == Some(t)
  {
    var lines := SerializeLines(t);
    SerializedLinesShape(t);
    SplitJoin(lines, '\n');
    NonBlankAll(lines);
    assert NonBlank(Split(SerializeTable(t), '\n')) == lines;
    SerializedLinesParse(t);
    var rows := ParsedRows(lines);
    assert rows[0] == t.headers && rows[1] == Tokens(t.alignments) && rows[2..] == t.rows;
    BuildOfRectangular(t);
  }

  lemma TokensEscapeFree(aligns: seq<Alignment>)
    ensures EscapeAll(Tokens(aligns)) == Tokens(aligns) && AllCellsOk(Tokens(aligns))
  {
    var toks := Tokens(aligns);
    forall i | 0 <= i < |toks| ensures Escape(toks[i]) == toks[i] && CellOk(toks[i]) {
      AlignmentTokenShape(aligns[i]);
      EscapePlain(toks[i]);
    }
  }

  /** The rows serialised line `k` is written from, before escaping. */
  function LineRow(t: Table, k: nat): seq<string>
    requires k < |t.rows| + 2
  {
    if k == 0 then t.headers else if k == 1 then Tokens(t.alignments) else t.rows[k - 2]
  }

  lemma LineRowCells(t: Table, k: nat)
    requires Canonical(t) && k < |t.rows| + 2
    ensures |LineRow(t, k)| >= 1 && AllCellsOk(LineRow(t, k)) && LineCells(t, k) == EscapeAll(LineRow(t, k))
  {
    if k == 1 {
      TokensEscapeFree(t.alignments);
    }
  }

  /** Serialised line `k` is one non-blank line. */
  lemma SerializedLineShape(t: Table, k: nat)
    requires Canonical(t) && k < |t.rows| + 2
    ensures '\n' !in SerializeLines(t)[k] && Trim(SerializeLines(t)[k]) != ""
  {
    var row := LineRow(t, k);
    var cells := LineCells(t, k);
    LineRowCells(t, k);
    forall i | 0 <= i < |cells| ensures '\n' !in cells[i] {
      EscapedCellShape(row[i]);
    }
    FormatRowLine(cells, ColumnWidths(t));
    assert SerializeLines(t)[k] == FormatRow(cells, ColumnWidths(t));
  }

  /** Every serialised line is one non-blank line. */
  lemma SerializedLinesShape(t: Table)
    requires Canonical(t)
    ensures forall k :: 0 <= k < |SerializeLines(t)| ==>
      '\n' !in SerializeLines(t)[k] && Trim(SerializeLines(t)[k]) != ""
  {
    forall k | 0 <= k < |SerializeLines(t)| ensures '\n' !in SerializeLines(t)[k] && Trim(SerializeLines(t)[k]) != "" {
      SerializedLineShape(t, k);
    }
  }

  /** Serialised line `k` parses back to the row it was written from. */
  lemma SerializedLineParse(t: Table, k: nat)
    requires Canonical(t) && k < |t.rows| + 2
    ensures ParseCells(SerializeLines(t)[k]) == LineRow(t, k)
  {
    LineRowCells(t, k);
    ParseFormatRow(LineRow(t, k), ColumnWidths(t));
    assert SerializeLines(t)[k] == FormatRow(LineCells(t, k), ColumnWidths(t));
  }

  lemma LineRowAt(t: Table, k: nat)
    requires k < |t.rows| + 2
    ensures ([t.headers, Tokens(t.alignments)] + t.rows)[k] == LineRow(t, k)
  {
  }

  /** Every serialised line parses back to the row it was written from. */
  lemma SerializedLinesParse(t: Table)
    requires Canonical(t)
    ensures ParsedRows(SerializeLines(t)) == [t.headers, Tokens(t.alignments)] + t.rows
  {
    var lines := SerializeLines(t);
    var want := [t.headers, Tokens(t.alignments)] + t.rows;
    forall k | 0 <= k < |lines| ensures ParsedRows(lines)[k] == want[k] {
      SerializedLineParse(t, k);
      LineRowAt(t, k);
    }
  }

  /** Building a table from the rows of a rectangular table and its alignment tokens gives
    * that table. */
  lemma BuildOfRectangular(t: Table)
    requires Rectangular(t)
    ensures BuildTable(t.headers, Tokens(t.alignments), t.rows) == t
  {
    var n := |t.headers|;
    var toks := Tokens(t.alignments);
    assert MaxRowLength(t.rows) <= n;
    forall i | 0 <= i < n ensures ParseAlignment(toks[i]) == t.alignments[i] {
      ParseBuildAlignment(t.alignments[i]);
    }
    var r := BuildTable(t.headers, toks, t.rows);
    assert Max(Max(n, n), Max(MaxRowLength(t.rows), 1)) == n;
    assert r.headers == PadCells(t.headers, n) == t.headers;
    assert r.alignments == t.alignments;
    forall b | 0 <= b < |t.rows| ensures r.rows[b] == t.rows[b] {
      assert r.rows[b] == PadCells(t.rows[b], n);
    }
  }

  // ---------------------------------------------------------------------------------------
  // Edits

  /** `Math.max(0, Math.min(x, hi))`. */
  function ClampIndex(x: int, hi: int): (r: nat)
    ensures hi >= 0 ==> r <= hi
    ensures 0 <= x <= hi ==> r == x
  {
    if x <= hi then (if x < 0 then 0 else x) else (if hi < 0 then 0 else hi)
  }

  /** `splice(i, 0, x)`; a start past the end inserts at the end. */
  function InsertAt<T>(s: seq<T>, i: nat, x: T): (r: seq<T>)
    ensures |r| == |s| + 1
  {
    var k := if i <= |s| then i else |s|;
    s[..k] + [x] + s[k..]
  }

  /** `splice(i, 1)`; a start past the end removes nothing. */
  function RemoveAt<T>(s: seq<T>, i: nat): (r: seq<T>)
    ensures |r| == if i < |s| then |s| - 1 else |s|
  {
    if i < |s| then s[..i] + s[i + 1..] else s
  }

  lemma RemoveInsert<T>(s: seq<T>, i: nat, x: T)
    requires i <= |s|
    ensures RemoveAt(InsertAt(s, i, x), i) == s
  {
    var r := InsertAt(s, i, x);
    assert r[..i] == s[..i] && r[i + 1..] == s[i..];
    assert s[..i] + s[i..] == s;
  }

  function EmptyRow(n: nat): (r: seq<string>)
    ensures |r| == n && forall i :: 0 <= i < n ==> r[i] == ""
  {
    seq(n, i requires 0 <= i < n => "")
  }

  /** The cell at `(row, col)` where row 0 is the header row and row `b + 1` body row `b`. */
  predicate InGrid(t: Table, row: nat, col: nat) {
    (row == 0 && col < |t.headers|) || (1 <= row <= |t.rows| && col < |t.rows[row - 1]|)
  }

  function GridAt(t: Table, row: nat, col: nat): string
    requires InGrid(t, row, col)
  {
    if row == 0 then t.headers[col] else t.rows[row - 1][col]
  }

  /** The coordinates `setCellText` accepts. */
  predicate Addressable(t: Table, rowIndex: int, columnIndex: int) {
    0 <= columnIndex < |t.headers| && 0 <= rowIndex <= |t.rows|
  }

  /** `setCellText`: writes the normalised value into one header or body cell of a copy; a
    * coordinate outside the table gives an equal copy. Body rows must be as wide as the
    * header row, as every parsed table is. */
  function SetCellText(t: Table, rowIndex: int, columnIndex: int, value: string): Table
    requires forall b :: 0 <= b < |t.rows| ==> |t.rows[b]| >= |t.headers|
  {
    WithCell(t, rowIndex, columnIndex, NormalizeCellValue(value))
  }

  /** The table with `v` written at an addressable cell. */
  function WithCell(t: Table, rowIndex: int, columnIndex: int, v: string): Table
    requires forall b :: 0 <= b < |t.rows| ==> |t.rows[b]| >= |t.headers|
  {
    if rowIndex == 0 then
      if columnIndex < 0 || columnIndex >= |t.headers| then t
      else t.(headers := t.headers[columnIndex := v])
    else
      var b := rowIndex - 1;
      if b < 0 || b >= |t.rows| then t
      else if columnIndex < 0 || columnIndex >= |t.headers| then t
      else t.(rows := t.rows[b := t.rows[b][columnIndex := v]])
  }

  /** `setCellText` changes exactly the addressed cell, to the normalised value, and nothing
    * else; outside the table it changes nothing. */
  lemma SetCellTextEffect(t: Table, rowIndex: int, columnIndex: int, value: string)
    requires forall b :: 0 <= b < |t.rows| ==> |t.rows[b]| >= |t.headers|
    ensures var r := SetCellText(t, rowIndex, columnIndex, value);
      r.alignments == t.alignments && |r.headers| == |t.headers| && |r.rows| == |t.rows|
      && (forall b :: 0 <= b < |t.rows| ==> |r.rows[b]| == |t.rows[b]|)
      && (!Addressable(t, rowIndex, columnIndex) ==> r == t)
      && (Addressable(t, rowIndex, columnIndex) ==>
            GridAt(r, rowIndex, columnIndex) == NormalizeCellValue(value)
            && forall row: nat, col: nat :: InGrid(t, row, col) && (row, col) != (rowIndex, columnIndex) ==>
                 GridAt(r, row, col) == GridAt(t, row, col))
  {
    var v := NormalizeCellValue(value);
    assert SetCellText(t, rowIndex, columnIndex, value) == WithCell(t, rowIndex, columnIndex, v);
    WithCellEffect(t, rowIndex, columnIndex, v);
  }

  lemma WithCellEffect(t: Table, rowIndex: int, columnIndex: int, v: string)
    requires forall b :: 0 <= b < |t.rows| ==> |t.rows[b]| >= |t.headers|
    ensures var r := WithCell(t, rowIndex, columnIndex, v);
      r.alignments == t.alignments && |r.headers| == |t.headers| && |r.rows| == |t.rows|
      && (forall b :: 0 <= b < |t.rows| ==> |r.rows[b]| == |t.rows[b]|)
      && (!Addressable(t, rowIndex, columnIndex) ==> r == t)
      && (Addressable(t, rowIndex, columnIndex) ==>
            GridAt(r, rowIndex, columnIndex) == v
            && forall row: nat, col: nat :: InGrid(t, row, col) && (row, col) != (rowIndex, columnIndex) ==>
                 GridAt(r, row, col) == GridAt(t, row, col))
  {
  }

  /** Editing a cell keeps a canonical table canonical, so it still serialises losslessly. */
  lemma SetCellTextCanonical(t: Table, rowIndex: int, columnIndex: int, value: string)
    requires Canonical(t)
    ensures Canonical(SetCellText(t, rowIndex, columnIndex, value))
  {
    NormalizeCellValueShape(value);
    WithCellCanonical(t, rowIndex, columnIndex, NormalizeCellValue(value));
  }

  lemma WithCellCanonical(t: Table, rowIndex: int, columnIndex: int, v: string)
    requires Canonical(t) && CellOk(v)
    ensures Canonical(WithCell(t, rowIndex, columnIndex, v))
  {
    var r := WithCell(t, rowIndex, columnIndex, v);
    if Addressable(t, rowIndex, columnIndex) && rowIndex > 0 {
      var b := rowIndex - 1;
      forall k | 0 <= k < |r.rows| ensures AllCellsOk(r.rows[k]) {
        if k != b {
          assert r.rows[k] == t.rows[k];
        }
      }
    }
  }

  /** `addRowAbove`: an all-'' row of header width at the clamped body index. */
  function AddRowAbove(t: Table, bodyRowIndex: int): (r: Table)
    ensures r.headers == t.headers && r.alignments == t.alignments
    ensures var i := ClampIndex(bodyRowIndex, |t.rows|);
      r.rows == t.rows[..i] + [EmptyRow(|t.headers|)] + t.rows[i..]
  {
    t.(rows := InsertAt(t.rows, ClampIndex(bodyRowIndex, |t.rows|), EmptyRow(|t.headers|)))
  }

  /** `addRowBelow`: the same, one index further down. */
  function AddRowBelow(t: Table, bodyRowIndex: int): (r: Table)
    ensures r == AddRowAbove(t, bodyRowIndex + 1)
  {
    t.(rows := InsertAt(t.rows, ClampIndex(bodyRowIndex + 1, |t.rows|), EmptyRow(|t.headers|)))
  }

  /** `deleteRow`: removes the row at the clamped index; an empty body stays as it is. */
  function DeleteRow(t: Table, bodyRowIndex: int): (r: Table)
    ensures r.headers == t.headers && r.alignments == t.alignments
    ensures |t.rows| == 0 ==> r == t
    ensures |t.rows| > 0 ==> var i := ClampIndex(bodyRowIndex, |t.rows| - 1);
      r.rows == t.rows[..i] + t.rows[i + 1..]
  {
    if |t.rows| == 0 then t
    else t.(rows := RemoveAt(t.rows, ClampIndex(bodyRowIndex, |t.rows| - 1)))
  }

  /** Deleting the row just added gives the table back. */
  lemma DeleteAddedRow(t: Table, bodyRowIndex: int)
    requires 0 <= bodyRowIndex <= |t.rows|
    ensures DeleteRow(AddRowAbove(t, bodyRowIndex), bodyRowIndex) == t
  {
    RemoveInsert(t.rows, bodyRowIndex, EmptyRow(|t.headers|));
  }

  /** Row edits keep a canonical table canonical. */
  lemma RowEditsCanonical(t: Table, bodyRowIndex: int)
    requires Canonical(t)
    ensures Canonical(AddRowAbove(t, bodyRowIndex)) && Canonical(AddRowBelow(t, bodyRowIndex))
    ensures Canonical(DeleteRow(t, bodyRowIndex))
  {
    var i := ClampIndex(bodyRowIndex, |t.rows|);
    var j := ClampIndex(bodyRowIndex + 1, |t.rows|);
    var e := EmptyRow(|t.headers|);
    forall b | 0 <= b < |t.rows| + 1 ensures AllCellsOk(InsertAt(t.rows, i, e)[b]) && AllCellsOk(InsertAt(t.rows, j, e)[b]) {
    }
  }

  /** A column of '' cells with left alignment at index `i` of every row. */
  function InsertColumn(t: Table, i: nat): Table {
    Table(InsertAt(t.headers, i, ""), InsertAt(t.alignments, i, Left),
      seq(|t.rows|, r requires 0 <= r < |t.rows| => InsertAt(t.rows[r], i, "")))
  }

  /** `addColumnLeft`. */
  function AddColumnLeft(t: Table, columnIndex: int): Table {
    InsertColumn(t, ClampIndex(columnIndex, |t.headers|))
  }

  /** `addColumnRight`. */
  function AddColumnRight(t: Table, columnIndex: int): Table {
    InsertColumn(t, ClampIndex(columnIndex + 1, |t.headers|))
  }

  /** `deleteColumn`: removes the clamped column everywhere, but never the last one. */
  function DeleteColumn(t: Table, columnIndex: int): Table {
    if |t.headers| <= 1 then t
    else
      var i := ClampIndex(columnIndex, |t.headers| - 1);
      Table(RemoveAt(t.headers, i), RemoveAt(t.alignments, i),
        seq(|t.rows|, r requires 0 <= r < |t.rows| => RemoveAt(t.rows[r], i)))
  }

  /** `setColumnAlignment`: sets the alignment of the clamped column. The index is clamped
    * by the header count, so the model needs an alignment per header. */
  function SetColumnAlignment(t: Table, columnIndex: int, a: Alignment): Table
    requires |t.alignments| >= |t.headers|
  {
    if |t.alignments| == 0 then t
    else t.(alignments := t.alignments[ClampIndex(columnIndex, |t.headers| - 1) := a])
  }

  /** Adding a column to a rectangular table puts '', left and '' at the same clamped index
    * of the header row, the alignment row and every body row, and keeps everything else. */
  lemma AddColumnEffect(t: Table, columnIndex: int)
    requires Rectangular(t)
    ensures var i := ClampIndex(columnIndex, |t.headers|);
      var r := AddColumnLeft(t, columnIndex);
      Rectangular(r) && |r.headers| == |t.headers| + 1 && |r.rows| == |t.rows|
      && r.headers == t.headers[..i] + [""] + t.headers[i..]
      && r.alignments == t.alignments[..i] + [Left] + t.alignments[i..]
      && forall b :: 0 <= b < |t.rows| ==> r.rows[b] == t.rows[b][..i] + [""] + t.rows[b][i..]
  {
  }

  /** Column edits keep a canonical table canonical, and deleting never drops below one column. */
  lemma ColumnEditsCanonical(t: Table, columnIndex: int, a: Alignment)
    requires Canonical(t)
    ensures Canonical(AddColumnLeft(t, columnIndex)) && Canonical(AddColumnRight(t, columnIndex))
    ensures Canonical(DeleteColumn(t, columnIndex)) && Canonical(SetColumnAlignment(t, columnIndex, a))
    ensures |DeleteColumn(t, columnIndex).headers| == if |t.headers| <= 1 then |t.headers| else |t.headers| - 1
  {
    InsertColumnCanonical(t, ClampIndex(columnIndex, |t.headers|));
    InsertColumnCanonical(t, ClampIndex(columnIndex + 1, |t.headers|));
    DeleteColumnCanonical(t, columnIndex);
  }

  lemma InsertColumnCanonical(t: Table, i: nat)
    requires Canonical(t) && i <= |t.headers|
    ensures Canonical(InsertColumn(t, i))
  {
    var r := InsertColumn(t, i);
    forall b | 0 <= b < |t.rows| ensures AllCellsOk(r.rows[b]) {
      InsertOk(t.rows[b], i);
    }
    InsertOk(t.headers, i);
  }

  lemma DeleteColumnCanonical(t: Table, columnIndex: int)
    requires Canonical(t)
    ensures Canonical(DeleteColumn(t, columnIndex))
  {
    if |t.headers| > 1 {
      var d := ClampIndex(columnIndex, |t.headers| - 1);
      var r := DeleteColumn(t, columnIndex);
      forall b | 0 <= b < |t.rows| ensures AllCellsOk(r.rows[b]) {
        RemoveOk(t.rows[b], d);
      }
      RemoveOk(t.headers, d);
    }
  }

  lemma InsertOk(cells: seq<string>, i: nat)
    requires AllCellsOk(cells)
    ensures AllCellsOk(InsertAt(cells, i, ""))
  {
  }

  lemma RemoveOk(cells: seq<string>, i: nat)
    requires AllCellsOk(cells)
    ensures AllCellsOk(RemoveAt(cells, i))
  {
  }

  /** Deleting the column just added gives the table back. */
  lemma DeleteAddedColumn(t: Table, columnIndex: int)
    requires Rectangular(t) && 0 <= columnIndex <= |t.headers|
    ensures DeleteColumn(AddColumnLeft(t, columnIndex), columnIndex) == t
  {
    var r := AddColumnLeft(t, columnIndex);
    RemoveInsert(t.headers, columnIndex, "");
    RemoveInsert(t.alignments, columnIndex, Left);
    forall b | 0 <= b < |t.rows| ensures RemoveAt(r.rows[b], columnIndex) == t.rows[b] {
      RemoveInsert(t.rows[b], columnIndex, "");
    }
  }

  /** `clampTargetSize(value, 1)` for a finite value: `max(1, floor(value))`. */
  function ClampTarget(v: real): (r: nat)
    ensures r >= 1 && (v >= 1.0 ==> r == v.Floor) && (v < 1.0 ==> r == 1)
  {
    if v.Floor < 1 then 1 else v.Floor
  }

  /** `slice(0, n)`. */
  function Take<T>(s: seq<T>, n: nat): (r: seq<T>)
    ensures |r| == if n <= |s| then n else |s|
  {
    if n <= |s| then s[..n] else s
  }

  function LeftRun(n: nat): (r: seq<Alignment>)
    ensures |r| == n && forall i :: 0 <= i < n ==> r[i] == Left
  {
    seq(n, i requires 0 <= i < n => Left)
  }

  /** The column half of `resizeTable`: cut every row to `n` cells, or pad every row with
    * '' (and the alignments with left) by the header shortfall. */
  function ResizeColumns(t: Table, n: nat): Table {
    if |t.headers| > n then
      Table(t.headers[..n], Take(t.alignments, n), seq(|t.rows|, r requires 0 <= r < |t.rows| => Take(t.rows[r], n)))
    else if |t.headers| < n then
      var add := n - |t.headers|;
      Table(t.headers + EmptyRow(add), t.alignments + LeftRun(add),
        seq(|t.rows|, r requires 0 <= r < |t.rows| => t.rows[r] + EmptyRow(add)))
    else t
  }

  /** The row half: cut the body to `k` rows or add all-'' rows of `n` cells. */
  function ResizeRows(t: Table, n: nat, k: nat): Table {
    if |t.rows| > k then t.(rows := t.rows[..k])
    else if |t.rows| < k then t.(rows := t.rows + seq(k - |t.rows|, _ => EmptyRow(n)))
    else t
  }

  /** `resizeTable` for finite targets. */
  function ResizeTable(t: Table, targetBodyRows: real, targetColumns: real): Table {
    var n := ClampTarget(targetColumns);
    ResizeRows(ResizeColumns(t, n), n, ClampTarget(targetBodyRows))
  }

  /** A resized rectangular table has exactly the clamped numbers of columns and body rows,
    * keeps every cell of the overlap, and pads with '' cells and left alignment. */
  lemma ResizeTableEffect(t: Table, targetBodyRows: real, targetColumns: real)
    requires Rectangular(t)
    ensures var n := ClampTarget(targetColumns);
      var k := ClampTarget(targetBodyRows);
      var r := ResizeTable(t, targetBodyRows, targetColumns);
      Rectangular(r) && |r.headers| == n && |r.rows| == k
      && (forall i :: 0 <= i < n ==> r.headers[i] == (if i < |t.headers| then t.headers[i] else ""))
      && (forall i :: 0 <= i < n ==> r.alignments[i] == (if i < |t.headers| then t.alignments[i] else Left))
      && (forall b, i :: 0 <= b < k && 0 <= i < n ==>
            r.rows[b][i] == (if b < |t.rows| && i < |t.headers| then t.rows[b][i] else ""))
  {
  }

  /** Resizing keeps a canonical table canonical. */
  lemma ResizeTableCanonical(t: Table, targetBodyRows: real, targetColumns: real)
    requires Canonical(t)
    ensures Canonical(ResizeTable(t, targetBodyRows, targetColumns))
  {
    ResizeTableEffect(t, targetBodyRows, targetColumns);
    var r := ResizeTable(t, targetBodyRows, targetColumns);
    forall b | 0 <= b < |r.rows| ensures AllCellsOk(r.rows[b]) {
      forall i | 0 <= i < |r.rows[b]| ensures CellOk(r.rows[b][i]) {
        if b < |t.rows| && i < |t.headers| {
          assert CellOk(t.rows[b][i]);
        }
      }
    }
    forall i | 0 <= i < |r.headers| ensures CellOk(r.headers[i]) {
      if i < |t.headers| {
        assert CellOk(t.headers[i]);
      }
    }
  }
}
