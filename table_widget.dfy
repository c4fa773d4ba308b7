/**
 * The older table widget of the WYSIWYG editor. It has its own row parser and serialiser,
 * which know nothing of escapes: a row is cut at every '|'. Editing a cell re-parses the
 * widget's table text, changes the cell, re-serialises the table and replaces the table's
 * range of the document with the result.
 */
module TableWidgetEditor {
  import opened Wrappers
  import opened Strings
  import opened TextDoc
  import opened EditorView
  import opened TableModel

  /** `replace(/^\|/, '')` then `replace(/\|$/, '')`: at most one pipe is dropped at each
    * end, and only when it is the very first or very last character. */
  function StripPipes(line: string): (r: string)
    ensures StartsWith(line, "|") ==> (EndsWith(line[1..], "|") ==> r == line[1..|line| - 1])
    ensures !StartsWith(line, "|") && !EndsWith(line, "|") ==> r == line
  {
    var a := if StartsWith(line, "|") then line[1..] else line;
    if EndsWith(a, "|") then a[..|a| - 1] else a
  }

  lemma StripPipesSlice(line: string) returns (a: nat, b: nat)
    ensures a <= b <= |line| && StripPipes(line) == line[a..b]
  {
    a := if StartsWith(line, "|") then 1 else 0;
    var rest := line[a..];
    b := if EndsWith(rest, "|") then |line| - 1 else |line|;
  }

  /** Dropping the framing pipes of `|j|` leaves `j`. */
  lemma StripFramed(j: string)
    ensures StripPipes("|" + j + "|") == j
  {
    var line := "|" + j + "|";
    assert StartsWith(line, "|");
    assert line[1..] == j + "|";
  }

  /** `parseCells`: split on every '|' and trim each piece. */
  function WidgetCells(line: string): (r: seq<string>)
    ensures |r| == |Split(StripPipes(line), '|')| >= 1
    ensures forall i :: 0 <= i < |r| ==> r[i] == Trim(Split(StripPipes(line), '|')[i])
  {
    var pieces := Split(StripPipes(line), '|');
    seq(|pieces|, i requires 0 <= i < |pieces| => Trim(pieces[i]))
  }

  /** A cell the widget can hold: stored form and free of pipes. */
  predicate PipeFree(cells: seq<string>) {
    forall i :: 0 <= i < |cells| ==> '|' !in cells[i]
  }

  predicate WidgetCanonical(t: Table) {
    Canonical(t) && PipeFree(t.headers) && forall b :: 0 <= b < |t.rows| ==> PipeFree(t.rows[b])
  }

  /** Every cell of a parsed line is stored-form and pipe-free, given a line without '\n'. */
  lemma WidgetCellsShape(line: string)
    requires '\n' !in line
    ensures AllCellsOk(WidgetCells(line)) && PipeFree(WidgetCells(line))
  {
    var r := WidgetCells(line);
    forall i | 0 <= i < |r| ensures CellOk(r[i]) && '|' !in r[i] {
      WidgetCellShape(line, i);
    }
  }

  lemma WidgetCellShape(line: string, i: nat)
    requires '\n' !in line && i < |WidgetCells(line)|
    ensures CellOk(WidgetCells(line)[i]) && '|' !in WidgetCells(line)[i]
  {
    var s := StripPipes(line);
    var a, b := StripPipesSlice(line);
    SliceExcludes(line, a, b, '\n');
    var pieces := Split(s, '|');
    SplitExcludes(s, '|', '\n');
    var p := pieces[i];
    var c := WidgetCells(line)[i];
    assert c == Trim(p);
    var k := TrimSlice(p);
    SliceExcludes(p, k, k + |c|, '\n');
    SliceExcludes(p, k, k + |c|, '|');
  }

  lemma SliceExcludes(s: string, a: nat, b: nat, c: char)
    requires a <= b <= |s| && c !in s
    ensures c !in s[a..b]
  {
    assert forall i :: 0 <= i < b - a ==> s[a..b][i] == s[a + i];
  }

  /** A piece of a split text holds only characters of the text. */
  lemma {:induction false} SplitExcludes(s: string, d: char, c: char)
    requires c !in s
    ensures forall i :: 0 <= i < |Split(s, d)| ==> c !in Split(s, d)[i]
  {
    if s != [] {
      SplitExcludes(s[1..], d, c);
      if s[0] != d {
        var rest := Split(s[1..], d);
        assert c !in [s[0]] + rest[0];
      }
    }
  }

  function WidgetRows(lines: seq<string>): (rows: seq<seq<string>>)
    ensures |rows| == |lines| && forall i :: 0 <= i < |lines| ==> rows[i] == WidgetCells(lines[i])
  {
    seq(|lines|, i requires 0 <= i < |lines| => WidgetCells(lines[i]))
  }

  /** The local `parseTableModel`: the same construction as the escaping model, with the
    * non-escaping row parser. */
  function WidgetParse(text: string): (r: Option<Table>)
    ensures r.None? <==> |NonBlank(Split(text, '\n'))| < 2
    ensures r.Some? ==> Rectangular(r.value) && |r.value.rows| == |NonBlank(Split(text, '\n'))| - 2
  {
    var lines := NonBlank(Split(text, '\n'));
    if |lines| < 2 then None
    else
      var rows := WidgetRows(lines);
      Some(BuildTable(rows[0], rows[1], rows[2..]))
  }

  /** Every table the widget parses is one it can serialise and read back. */
  lemma WidgetParseShape(text: string)
    requires WidgetParse(text).Some?
    ensures WidgetCanonical(WidgetParse(text).value)
  {
    var lines := NonBlank(Split(text, '\n'));
    var rows := WidgetRows(lines);
    forall k | 0 <= k < |lines| ensures AllCellsOk(rows[k]) && PipeFree(rows[k]) {
      WidgetRowShape(text, k);
    }
    BuildTableShape(rows[0], rows[1], rows[2..]);
  }

  lemma WidgetRowShape(text: string, k: nat)
    requires k < |NonBlank(Split(text, '\n'))|
    ensures var lines := NonBlank(Split(text, '\n'));
      AllCellsOk(WidgetRows(lines)[k]) && PipeFree(WidgetRows(lines)[k])
  {
    var lines := NonBlank(Split(text, '\n'));
    NonBlankFrom(Split(text, '\n'), k);
    WidgetCellsShape(lines[k]);
  }

  /** Kept lines are lines of the input, so they hold no '\n' when the input lines do not. */
  lemma NonBlankFrom(lines: seq<string>, k: nat)
    requires forall i :: 0 <= i < |lines| ==> '\n' !in lines[i]
    requires k < |NonBlank(lines)|
    ensures '\n' !in NonBlank(lines)[k]
  {
    assert NonBlank(lines)[k] in NonBlank(lines);
  }

  /** Padding only adds '' cells, so stored-form, pipe-free rows give such a table. */
  lemma BuildTableShape(headers: seq<string>, alignmentCells: seq<string>, body: seq<seq<string>>)
    requires AllCellsOk(headers) && PipeFree(headers)
    requires forall b :: 0 <= b < |body| ==> AllCellsOk(body[b]) && PipeFree(body[b])
    ensures WidgetCanonical(BuildTable(headers, alignmentCells, body))
  {
    var t := BuildTable(headers, alignmentCells, body);
    var n := |t.headers|;
    assert t.headers == PadCells(headers, n);
    forall b | 0 <= b < |body| ensures t.rows[b] == PadCells(body[b], n) {
    }
  }

  /** Widths of the widget serialiser: the longest header, token or cell of the column, at
    * least 1, with no escaping. */
  function MaxPlainWidth(rows: seq<seq<string>>, i: nat): (m: nat)
    ensures forall r :: 0 <= r < |rows| ==> |CellOf(rows[r], i)| <= m
  {
    if rows == [] then 0
    else
      var m := MaxPlainWidth(rows[1..], i);
      if |CellOf(rows[0], i)| >= m then |CellOf(rows[0], i)| else m
  }

  function WidgetWidths(t: Table): (w: seq<nat>)
    requires |t.alignments| >= |t.headers|
    ensures |w| == |t.headers|
  {
    seq(|t.headers|, i requires 0 <= i < |t.headers| =>
      Max(Max(|t.headers[i]|, |BuildAlignment(t.alignments[i])|), Max(MaxPlainWidth(t.rows, i), 1)) as nat)
  }

  /** Every widget column is at least one wide and as wide as its header, its alignment token
    * and each of its cells. */
  lemma WidgetWidthsCover(t: Table, i: nat)
    requires |t.alignments| >= |t.headers| && i < |t.headers|
    ensures var w := WidgetWidths(t)[i];
      w >= 1 && w >= |t.headers[i]| && w >= |BuildAlignment(t.alignments[i])|
      && forall r :: 0 <= r < |t.rows| ==> w >= |CellOf(t.rows[r], i)|
  {
    var m := MaxPlainWidth(t.rows, i);
    assert forall r :: 0 <= r < |t.rows| ==> |CellOf(t.rows[r], i)| <= m;
  }

  /** The widget's lines: header row, alignment row, one line per body row, cells unescaped. */
  function WidgetLines(t: Table): (lines: seq<string>)
    requires |t.alignments| >= |t.headers|
    ensures |lines| == |t.rows| + 2
  {
    var w := WidgetWidths(t);
    seq(|t.rows| + 2, k requires 0 <= k < |t.rows| + 2 => FormatRow(LineRow(t, k), w))
  }

  /** The local `serializeTableModel`: cells are written as they are. */
  function WidgetSerialize(t: Table): string
    requires |t.alignments| >= |t.headers|
  {
    Join(WidgetLines(t), '\n')
  }

  /** A formatted row of stored-form, pipe-free cells parses back to those cells. */
  lemma WidgetRowRoundTrip(cells: seq<string>, widths: seq<nat>)
    requires |cells| >= 1 && AllCellsOk(cells) && PipeFree(cells)
    ensures WidgetCells(FormatRow(cells, widths)) == cells
  {
    var segs := Segments(cells, widths);
    StripFramed(Join(segs, '|'));
    forall i | 0 <= i < |segs| ensures '|' !in segs[i] && Trim(segs[i]) == cells[i] {
      PlainSegment(cells[i], Width(widths, i));
    }
    SplitJoin(segs, '|');
  }

  /** The segment of a stored-form, pipe-free cell holds no pipe and trims to the cell. */
  lemma PlainSegment(c: string, w: nat)
    requires CellOk(c) && '|' !in c
    ensures '|' !in " " + PadEnd(c, w) + " " && Trim(" " + PadEnd(c, w) + " ") == c
  {
    var p := PadEnd(c, w);
    assert p == c + p[|c|..];
    TrimSegment(c, w);
  }

  /** Serialising a table of stored-form, pipe-free cells and parsing the text with the
    * widget's own parser gives the table back. */
  lemma WidgetParseSerialize(t: Table)
    requires WidgetCanonical(t)
    ensures WidgetParse(WidgetSerialize(t)) == Some(t)
  {
    var lines := WidgetLines(t);
    WidgetLinesShape(t);
    SplitJoin(lines, '\n');
    NonBlankAll(lines);
    assert NonBlank(Split(WidgetSerialize(t), '\n')) == lines;
    WidgetLinesParse(t);
    var rows := WidgetRows(lines);
    assert rows[0] == t.headers && rows[1] == Tokens(t.alignments) && rows[2..] == t.rows;
    BuildOfRectangular(t);
  }

  lemma TokensPlain(aligns: seq<Alignment>)
    ensures AllCellsOk(Tokens(aligns)) && PipeFree(Tokens(aligns))
  {
    var toks := Tokens(aligns);
    forall i | 0 <= i < |toks| ensures CellOk(toks[i]) && '|' !in toks[i] {
      AlignmentTokenShape(aligns[i]);
    }
  }

  lemma WidgetLineRow(t: Table, k: nat)
    requires WidgetCanonical(t) && k < |t.rows| + 2
    ensures |LineRow(t, k)| >= 1 && AllCellsOk(LineRow(t, k)) && PipeFree(LineRow(t, k))
  {
    if k == 1 {
      TokensPlain(t.alignments);
    }
  }

  /** Widget line `k` is one non-blank line that parses back to the row it was written from. */
  lemma WidgetLineAt(t: Table, k: nat)
    requires WidgetCanonical(t) && k < |t.rows| + 2
    ensures '\n' !in WidgetLines(t)[k] && Trim(WidgetLines(t)[k]) != ""
    ensures WidgetCells(WidgetLines(t)[k]) == LineRow(t, k)
  {
    var row := LineRow(t, k);
    var w := WidgetWidths(t);
    WidgetLineRow(t, k);
    FormatRowLine(row, w);
    WidgetRowRoundTrip(row, w);
    assert WidgetLines(t)[k] == FormatRow(row, w);
  }

  /** Every line the widget writes is one non-blank line. */
  lemma WidgetLinesShape(t: Table)
    requires WidgetCanonical(t)
    ensures forall k :: 0 <= k < |WidgetLines(t)| ==> '\n' !in WidgetLines(t)[k] && Trim(WidgetLines(t)[k]) != ""
  {
    forall k | 0 <= k < |WidgetLines(t)| ensures '\n' !in WidgetLines(t)[k] && Trim(WidgetLines(t)[k]) != "" {
      WidgetLineAt(t, k);
    }
  }

  /** Every line the widget writes parses back to the row it was written from. */
  lemma WidgetLinesParse(t: Table)
    requires WidgetCanonical(t)
    ensures WidgetRows(WidgetLines(t)) == [t.headers, Tokens(t.alignments)] + t.rows
  {
    var lines := WidgetLines(t);
    var want := [t.headers, Tokens(t.alignments)] + t.rows;
    forall k | 0 <= k < |lines| ensures WidgetRows(lines)[k] == want[k] {
      WidgetLineAt(t, k);
      LineRowAt(t, k);
    }
  }

  /** The model after the cell edit of `updateCell`, or `None` when it returns early: the
    * body row does not exist, or the cell already holds the normalised value `v`. (A falsy
    * cell is first set to '', which for an existing cell changes nothing.) */
  function EditedModel(m: Table, rowIndex: nat, columnIndex: nat, v: string): (r: Option<Table>)
    requires Rectangular(m) && columnIndex < |m.headers|
    ensures r.Some? ==> r.value == WithCell(m, rowIndex, columnIndex, v)
    ensures r.Some? <==> (Addressable(m, rowIndex, columnIndex) && GridAt(m, rowIndex, columnIndex) != v)
  {
    if rowIndex == 0 then
      if m.headers[columnIndex] == v then None else Some(m.(headers := m.headers[columnIndex := v]))
    else if rowIndex - 1 >= |m.rows| then None
    else if m.rows[rowIndex - 1][columnIndex] == v then None
    else Some(m.(rows := m.rows[rowIndex - 1 := m.rows[rowIndex - 1][columnIndex := v]]))
  }

  lemma EditedHeader(m: Table, columnIndex: nat, v: string)
    requires Rectangular(m) && columnIndex < |m.headers| && m.headers[columnIndex] != v
    ensures EditedModel(m, 0, columnIndex, v) == Some(m.(headers := m.headers[columnIndex := v]))
  {
  }

  lemma EditedBody(m: Table, rowIndex: nat, columnIndex: nat, v: string)
    requires Rectangular(m) && columnIndex < |m.headers| && 0 < rowIndex <= |m.rows|
    requires m.rows[rowIndex - 1][columnIndex] != v
    ensures EditedModel(m, rowIndex, columnIndex, v)
      == Some(m.(rows := m.rows[rowIndex - 1 := m.rows[rowIndex - 1][columnIndex := v]]))
  {
  }

  /** The dispatch step of `updateCell`: nothing unless there is an edited model, the table
    * range is a non-empty range of the document and the new text differs from it. */
  function InsertFor(edited: Option<Table>, tableFrom: int, tableTo: int, doc: string): (r: Option<string>)
    requires edited.Some? ==> |edited.value.alignments| >= |edited.value.headers|
    ensures r.Some? <==> (edited.Some? && 0 <= tableFrom < tableTo <= |doc|
                          && WidgetSerialize(edited.value) != doc[tableFrom..tableTo])
    ensures r.Some? ==> r.value == WidgetSerialize(edited.value)
  {
    if edited.None? then None
    else if tableFrom < 0 || tableTo > |doc| || tableFrom >= tableTo then None
    else
      var next := WidgetSerialize(edited.value);
      if next == doc[tableFrom..tableTo] then None else Some(next)
  }

  /** What `updateCell` inserts over `[tableFrom, tableTo)` of `doc`, or `None` when it
    * dispatches nothing (including when the widget text does not parse). */
  function UpdateCellInsert(tableText: string, tableFrom: int, tableTo: int, doc: string,
                            rowIndex: nat, columnIndex: nat, nextValue: string): (r: Option<string>)
    requires WidgetParse(tableText).Some? ==> columnIndex < |WidgetParse(tableText).value.headers|
    ensures r.Some? ==> 0 <= tableFrom < tableTo <= |doc| && r.value != doc[tableFrom..tableTo]
  {
    var parsed := WidgetParse(tableText);
    if parsed.None? then None
    else InsertFor(EditedModel(parsed.value, rowIndex, columnIndex, NormalizeCellValue(nextValue)), tableFrom, tableTo, doc)
  }

  /** Re-parsing the serialised edited table gives the edited table: exactly the one cell
    * changed, provided the new value is stored-form and pipe-free. */
  lemma EditReparses(m: Table, rowIndex: nat, columnIndex: nat, v: string)
    requires WidgetCanonical(m) && CellOk(v) && '|' !in v
    ensures WidgetCanonical(WithCell(m, rowIndex, columnIndex, v))
    ensures WidgetParse(WidgetSerialize(WithCell(m, rowIndex, columnIndex, v))) == Some(WithCell(m, rowIndex, columnIndex, v))
  {
    WithCellCanonical(m, rowIndex, columnIndex, v);
    WithCellEffect(m, rowIndex, columnIndex, v);
    var e := WithCell(m, rowIndex, columnIndex, v);
    assert PipeFree(e.headers) by {
      forall i | 0 <= i < |e.headers| ensures '|' !in e.headers[i] {
        assert InGrid(m, 0, i);
      }
    }
    forall b | 0 <= b < |e.rows| ensures PipeFree(e.rows[b]) {
      forall i | 0 <= i < |e.rows[b]| ensures '|' !in e.rows[b][i] {
        assert InGrid(m, b + 1, i);
      }
    }
    WidgetParseSerialize(e);
  }

  /** The text `updateCell` inserts, parsed again by the widget, is the old table with exactly
    * the edited cell changed to the normalised value, provided the value holds no '|'. */
  lemma UpdateCellReparses(tableText: string, tableFrom: int, tableTo: int, doc: string,
                           rowIndex: nat, columnIndex: nat, nextValue: string)
    requires WidgetParse(tableText).Some? ==> columnIndex < |WidgetParse(tableText).value.headers|
    requires '|' !in nextValue
    requires UpdateCellInsert(tableText, tableFrom, tableTo, doc, rowIndex, columnIndex, nextValue).Some?
    ensures WidgetParse(tableText).Some?
    ensures WidgetParse(UpdateCellInsert(tableText, tableFrom, tableTo, doc, rowIndex, columnIndex, nextValue).value)
      == Some(WithCell(WidgetParse(tableText).value, rowIndex, columnIndex, NormalizeCellValue(nextValue)))
  {
    var m := WidgetParse(tableText).value;
    WidgetParseShape(tableText);
    InsertReparses(m, tableFrom, tableTo, doc, rowIndex, columnIndex, nextValue);
  }

  /** `UpdateCellReparses` for an already parsed table `m`. */
  lemma InsertReparses(m: Table, tableFrom: int, tableTo: int, doc: string,
                       rowIndex: nat, columnIndex: nat, nextValue: string)
    requires WidgetCanonical(m) && columnIndex < |m.headers| && '|' !in nextValue
    requires InsertFor(EditedModel(m, rowIndex, columnIndex, NormalizeCellValue(nextValue)), tableFrom, tableTo, doc).Some?
    ensures WidgetParse(InsertFor(EditedModel(m, rowIndex, columnIndex, NormalizeCellValue(nextValue)), tableFrom, tableTo, doc).value)
      == Some(WithCell(m, rowIndex, columnIndex, NormalizeCellValue(nextValue)))
  {
    var v := NormalizeCellValue(nextValue);
    NormalizeCellValueShape(nextValue);
    NormalizeKeepsOut(nextValue, '|');
    EditReparses(m, rowIndex, columnIndex, v);
  }

  /** Normalising only removes characters or turns whitespace into ' '. */
  lemma NormalizeKeepsOut(value: string, c: char)
    requires c !in value && !IsSpace(c)
    ensures c !in NormalizeCellValue(value)
  {
    NormalizeFromKeepsOut(value, false, false, c);
  }

  lemma {:induction false} NormalizeFromKeepsOut(s: string, pending: bool, started: bool, c: char)
    requires c !in s && !IsSpace(c)
    ensures c !in NormalizeFrom(s, pending, started)
  {
    if s != [] {
      if !IsSpace(s[0]) {
        NormalizeFromKeepsOut(s[1..], false, true, c);
      } else {
        NormalizeFromKeepsOut(s[1..], started, started, c);
      }
    }
  }

  class TableWidget {
    const tableText: string
    const tableFrom: int
    const tableTo: int

    constructor (tableText: string, tableFrom: int, tableTo: int)
      ensures this.tableText == tableText && this.tableFrom == tableFrom && this.tableTo == tableTo
    {
      this.tableText := tableText;
      this.tableFrom := tableFrom;
      this.tableTo := tableTo;
    }

    /** `eq`: same text and same range. */
    predicate Eq(other: TableWidget) {
      tableText == other.tableText && tableFrom == other.tableFrom && tableTo == other.tableTo
    }

    /** `ignoreEvent`: the widget handles every DOM event itself. */
    function IgnoreEvent(): (r: bool)
      ensures r
    {
      true
    }

    /** `updateCell`: re-parse the widget's text, change one cell of the parsed model, and
      * replace the table's range of the document with the re-serialised table. */
    method UpdateCell(view: View, rowIndex: nat, columnIndex: nat, nextValue: string)
      requires view.Valid()
      requires WidgetParse(tableText).Some? ==> columnIndex < |WidgetParse(tableText).value.headers|
      modifies view
      ensures view.Valid()
      ensures (view.doc, view.sel) == AfterInsert(old(view.doc), old(view.sel), tableFrom, tableTo,
        UpdateCellInsert(tableText, tableFrom, tableTo, old(view.doc), rowIndex, columnIndex, nextValue))
    {
      var parsed := WidgetParse(tableText);
      if parsed.None? {
        return;
      }
      var model := parsed.value;
      assert Rectangular(model) && columnIndex < |model.headers|;
      var normalizedValue := NormalizeCellValue(nextValue);
      ghost var edited := EditedModel(model, rowIndex, columnIndex, normalizedValue);
      ghost var m0 := model;
      if rowIndex == 0 {
        if model.headers[columnIndex] == normalizedValue {
          return;
        }
        model := model.(headers := model.headers[columnIndex := normalizedValue]);
        assert edited == Some(model) by {
          EditedHeader(m0, columnIndex, normalizedValue);
        }
      } else {
        var bodyRowIndex := rowIndex - 1;
        if bodyRowIndex >= |model.rows| {
          return;
        }
        if model.rows[bodyRowIndex][columnIndex] == normalizedValue {
          return;
        }
        model := model.(rows := model.rows[bodyRowIndex := model.rows[bodyRowIndex][columnIndex := normalizedValue]]);
        assert edited == Some(model) by {
          EditedBody(m0, rowIndex, columnIndex, normalizedValue);
        }
      }
      ReplaceTable(view, model);
    }

    /** The end of `updateCell`: within the document and when the text changes, replace the
      * table's range with the serialised model. */
    method ReplaceTable(view: View, model: Table)
      requires view.Valid() && |model.alignments| >= |model.headers|
      modifies view
      ensures view.Valid()
      ensures (view.doc, view.sel) == AfterInsert(old(view.doc), old(view.sel), tableFrom, tableTo,
        InsertFor(Some(model), tableFrom, tableTo, old(view.doc)))
    {
      if tableFrom < 0 || tableTo > |view.doc| || tableFrom >= tableTo {
        return;
      }
      var nextTableText := WidgetSerialize(model);
      if nextTableText == view.doc[tableFrom..tableTo] {
        return;
      }
      var change := Change(tableFrom, tableTo, nextTableText);
      ApplyOne(view.doc, change);
      view.Dispatch([change], None);
    }
  }

  /** CodeMirror keeps the DOM of the old widget when `eq` says the new one is equal, so the
    * cells' handlers keep calling the old widget's `updateCell`. That reuse is sound: every
    * edit inserts what the new widget would insert, and that text parses back to the new
    * widget's table with exactly the edited cell changed. */
  lemma EqReusesDom(a: TableWidget, b: TableWidget, doc: string,
                    rowIndex: nat, columnIndex: nat, nextValue: string)
    requires a.Eq(b)
    requires WidgetParse(b.tableText).Some? ==> columnIndex < |WidgetParse(b.tableText).value.headers|
    requires '|' !in nextValue
    ensures UpdateCellInsert(a.tableText, a.tableFrom, a.tableTo, doc, rowIndex, columnIndex, nextValue)
      == UpdateCellInsert(b.tableText, b.tableFrom, b.tableTo, doc, rowIndex, columnIndex, nextValue)
    ensures var ins := UpdateCellInsert(a.tableText, a.tableFrom, a.tableTo, doc, rowIndex, columnIndex, nextValue);
      ins.Some? ==> (WidgetParse(b.tableText).Some?
        && WidgetParse(ins.value) == Some(WithCell(WidgetParse(b.tableText).value, rowIndex, columnIndex, NormalizeCellValue(nextValue))))
  {
    if UpdateCellInsert(b.tableText, b.tableFrom, b.tableTo, doc, rowIndex, columnIndex, nextValue).Some? {
      UpdateCellReparses(b.tableText, b.tableFrom, b.tableTo, doc, rowIndex, columnIndex, nextValue);
    }
  }
}
