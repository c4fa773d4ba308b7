/**
 * Inline HTML tags in the live preview (`inlineHtmlDecorations.ts`): `<u>`, `<sup>` and
 * `<sub>` markers found in the text are paired with a stack, markers inside excluded
 * ranges (code) are ignored, and each pair styles its content and hides or dims its
 * markers. Decorations are plain records here.
 */
module InlineHtml {
  import opened Wrappers
  import opened Strings
  import opened RangeUtils

  datatype Tag = U | Sup | Sub
  datatype MarkerType = Open | Close
  datatype Marker = Marker(kind: MarkerType, tag: Tag, from: int, to: int)

  datatype TagPair = TagPair(tag: Tag, open: DocRange, close: DocRange, content: DocRange, range: DocRange)

  /** A decoration: content styling for a tag, or a marker hidden or dimmed. */
  datatype Deco = ContentStyle(tag: Tag, from: int, to: int) | HideMarker(from: int, to: int) | DimMarker(from: int, to: int)

  function TagName(t: Tag): string {
    match t
    case U => "u"
    case Sup => "sup"
    case Sub => "sub"
  }

  /** `isSupportedInlineHtmlTag`. */
  function SupportedTag(name: string): (r: Option<Tag>)
    ensures r.Some? <==> name in {"u", "sup", "sub"}
    ensures r.Some? ==> TagName(r.value) == name
  {
    if name == "u" then Some(U) else if name == "sup" then Some(Sup) else if name == "sub" then Some(Sub) else None
  }

  // ---------------------------------------------------------------------------
  // Parsing one marker: /^<\s*(\/?)\s*([a-zA-Z][\w:-]*)\b[^>]*>$/ minus /\/\s*>$/

  predicate IsNameChar(c: char) {
    IsWordChar(c) || c == ':' || c == '-'
  }

  /** Length of the longest prefix made of `[\w:-]` characters. */
  function NameRun(s: string): (n: nat)
    ensures n <= |s|
    ensures forall j :: 0 <= j < n ==> IsNameChar(s[j])
    ensures n < |s| ==> !IsNameChar(s[n])
  {
    if s != [] && IsNameChar(s[0]) then 1 + NameRun(s[1..]) else 0
  }

  /** The run without its trailing ':' and '-' characters: the regex's word boundary after
    * the name makes it give those back to `[^>]*`. */
  function StripTrailing(s: string): (r: string)
    ensures |r| <= |s| && r == s[..|r|]
    ensures r != [] ==> IsWordChar(r[|r| - 1])
    ensures s != [] && IsWordChar(s[0]) ==> r != []
  {
    if s == [] || IsWordChar(s[|s| - 1]) then s else StripTrailing(s[..|s| - 1])
  }

  /** The regex match: whether '/' follows '<' (after optional whitespace) and the tag name. */
  function MatchMarker(raw: string): Option<(bool, string)> {
    if |raw| < 2 || raw[0] != '<' || raw[|raw| - 1] != '>' || '>' in raw[..|raw| - 1] then None
    else
      var a := TrimStart(raw[1..|raw| - 1]);
      var closing := a != [] && a[0] == '/';
      var b := if closing then TrimStart(a[1..]) else a;
      if b == [] || !IsAsciiLetter(b[0]) then None
      else Some((closing, StripTrailing(b[..NameRun(b)])))
  }

  /** `/\/\s*>$/`: the tag ends with '/', optional whitespace and '>'. */
  predicate SelfClosing(raw: string) {
    raw != [] && raw[|raw| - 1] == '>'
    && var t := TrimEnd(raw[..|raw| - 1]); t != [] && t[|t| - 1] == '/'
  }

  /** `parseInlineHtmlMarker`: a marker for a well-formed, not self-closing `u`, `sup` or
    * `sub` tag (any letter case) over a non-empty range. */
  function ParseInlineHtmlMarker(raw: string, from: int, to: int): (r: Option<Marker>)
    ensures from >= to ==> r.None?
    ensures r.Some? ==> r.value.from == from && r.value.to == to
    ensures r.Some? ==> !SelfClosing(raw) && MatchMarker(raw).Some?
    ensures r.Some? ==> (r.value.kind == Close <==> MatchMarker(raw).value.0)
    ensures r.Some? ==> ToLower(MatchMarker(raw).value.1) == TagName(r.value.tag)
  {
    if from >= to then None
    else match MatchMarker(raw)
      case None => None
      case Some((closing, name)) =>
        if SelfClosing(raw) then None
        else match SupportedTag(ToLower(name))
          case None => None
          case Some(tag) => Some(Marker(if closing then Close else Open, tag, from, to))
  }

  /** The canonical spelling of a marker. */
  function Render(kind: MarkerType, tag: Tag): string {
    "<" + (if kind == Close then "/" else "") + TagName(tag) + ">"
  }

  /** A non-empty run of lower-case ASCII letters, as the supported tag names are. */
  predicate LowerWord(s: string) {
    s != [] && forall i :: 0 <= i < |s| ==> 'a' <= s[i] <= 'z'
  }

  lemma TagNameWord(tag: Tag)
    ensures LowerWord(TagName(tag))
  {
  }

  /** A lower-case word is its own name run, trimmed, lower-cased and stripped form. */
  lemma WordFacts(name: string)
    requires LowerWord(name)
    ensures NameRun(name) == |name| && StripTrailing(name) == name
    ensures ToLower(name) == name && TrimStart(name) == name
    ensures '>' !in name && '/' !in name
  {
    NameRunAll(name);
    assert IsWordChar(name[|name| - 1]);
    assert !IsSpace(name[0]);
    forall i | 0 <= i < |name| ensures ToLower(name)[i] == name[i] {
      assert LowerChar(name[i]) == name[i];
    }
  }

  lemma {:induction false} NameRunAll(s: string)
    requires forall i :: 0 <= i < |s| ==> IsNameChar(s[i])
    ensures NameRun(s) == |s|
  {
    if s != [] {
      assert forall i :: 0 <= i < |s[1..]| ==> s[1..][i] == s[i + 1];
      NameRunAll(s[1..]);
    }
  }

  /** The match of a canonical marker: the slash when closing, and the word as the name. */
  lemma MatchWord(closing: bool, name: string)
    requires LowerWord(name)
    ensures MatchMarker("<" + (if closing then "/" else "") + name + ">") == Some((closing, name))
  {
    var slash := if closing then "/" else "";
    var raw := "<" + slash + name + ">";
    WordFacts(name);
    MarkerFrame(slash, name);
    var body := slash + name;
    BodyFacts(closing, name);
    if closing {
      MatchSteps(raw, body, TrimStart(body[1..]), closing, name);
    } else {
      MatchSteps(raw, body, body, closing, name);
    }
  }

  /** `<` + body + `>` with no `>` inside. */
  lemma MarkerFrame(slash: string, name: string)
    requires '>' !in slash && '>' !in name
    ensures var raw := "<" + slash + name + ">";
      |raw| >= 2 && raw[0] == '<' && raw[|raw| - 1] == '>' && '>' !in raw[..|raw| - 1]
      && raw[1..|raw| - 1] == slash + name
  {
    var raw := "<" + slash + name + ">";
    var inner := raw[..|raw| - 1];
    assert inner == "<" + (slash + name);
    assert raw[1..|raw| - 1] == inner[1..];
  }

  /** The body of a canonical marker starts with no whitespace, with '/' exactly when
    * closing, and leaves the word once the slash is dropped. */
  lemma BodyFacts(closing: bool, name: string)
    requires LowerWord(name)
    ensures var body := (if closing then "/" else "") + name;
      TrimStart(body) == body && (closing == (body != [] && body[0] == '/'))
      && (closing ==> TrimStart(body[1..]) == name)
      && (!closing ==> body == name)
      && name[..NameRun(name)] == name && IsAsciiLetter(name[0])
  {
    WordFacts(name);
    var body := (if closing then "/" else "") + name;
    assert !IsSpace(body[0]);
    if closing {
      assert body[1..] == name;
    }
  }

  /** `MatchMarker` evaluated step by step. */
  lemma MatchSteps(raw: string, a: string, b: string, closing: bool, name: string)
    requires |raw| >= 2 && raw[0] == '<' && raw[|raw| - 1] == '>' && '>' !in raw[..|raw| - 1]
    requires a == TrimStart(raw[1..|raw| - 1]) && closing == (a != [] && a[0] == '/')
    requires b == (if closing then TrimStart(a[1..]) else a)
    requires b != [] && IsAsciiLetter(b[0]) && name == StripTrailing(b[..NameRun(b)])
    ensures MatchMarker(raw) == Some((closing, name))
  {
  }

  lemma MatchRendered(kind: MarkerType, tag: Tag)
    ensures MatchMarker(Render(kind, tag)) == Some((kind == Close, TagName(tag)))
  {
    TagNameWord(tag);
    MatchWord(kind == Close, TagName(tag));
  }

  /** A tag ending in '/' before '>' (after optional whitespace) is self-closing. */
  lemma SlashEndIsSelfClosing(p: string, spaces: string)
    requires AllSpace(spaces)
    ensures SelfClosing(p + "/" + spaces + ">")
  {
    var raw := p + "/" + spaces + ">";
    var s := raw[..|raw| - 1];
    assert s == p + "/" + spaces;
    var t := TrimEnd(s);
    TrimEndSpaces(s);
    TrimEndPrefix(s);
    assert s[|p|] == '/' && !IsSpace('/');
    assert |t| == |p| + 1;
    assert t[|t| - 1] == s[|p|];
  }

  /** Every canonical marker parses back to its kind and tag. */
  lemma ParseRendered(kind: MarkerType, tag: Tag, from: int, to: int)
    requires from < to
    ensures ParseInlineHtmlMarker(Render(kind, tag), from, to) == Some(Marker(kind, tag, from, to))
  {
    MatchRendered(kind, tag);
    RenderedNotSelfClosing(kind, tag);
    LowerName(tag);
    ParseMatched(Render(kind, tag), from, to, kind == Close, TagName(tag));
  }

  lemma LowerName(tag: Tag)
    ensures ToLower(TagName(tag)) == TagName(tag) && SupportedTag(TagName(tag)) == Some(tag)
  {
    TagNameWord(tag);
    WordFacts(TagName(tag));
  }

  lemma ParseMatched(raw: string, from: int, to: int, closing: bool, name: string)
    requires from < to && MatchMarker(raw) == Some((closing, name)) && !SelfClosing(raw)
    requires SupportedTag(ToLower(name)).Some?
    ensures ParseInlineHtmlMarker(raw, from, to)
      == Some(Marker(if closing then Close else Open, SupportedTag(ToLower(name)).value, from, to))
  {
  }

  lemma RenderedNotSelfClosing(kind: MarkerType, tag: Tag)
    ensures !SelfClosing(Render(kind, tag))
  {
    var raw := Render(kind, tag);
    var s := raw[..|raw| - 1];
    var name := TagName(tag);
    assert s == "<" + (if kind == Close then "/" else "") + name;
    assert s[|s| - 1] == name[|name| - 1];
    assert !IsSpace(s[|s| - 1]);
    assert TrimEnd(s) == s;
  }

  /** Self-closing tags never parse, whatever precedes the '/'. */
  lemma SelfClosingIgnored(p: string, spaces: string, from: int, to: int)
    requires AllSpace(spaces)
    ensures ParseInlineHtmlMarker(p + "/" + spaces + ">", from, to).None?
  {
    SlashEndIsSelfClosing(p, spaces);
  }

  // ---------------------------------------------------------------------------
  // Sorting (`Array.prototype.sort` is stable)

  /** `(a, b) => a.from - b.from || a.to - b.to`. */
  predicate MarkerBefore(a: Marker, b: Marker) {
    a.from < b.from || (a.from == b.from && a.to < b.to)
  }

  predicate MarkersSorted(ms: seq<Marker>) {
    forall i, j :: 0 <= i < j < |ms| ==> !MarkerBefore(ms[j], ms[i])
  }

  /** Insert after every element that does not come after `m`, keeping ties in order. */
  function InsertMarker(s: seq<Marker>, m: Marker): (r: seq<Marker>)
    requires MarkersSorted(s)
    ensures MarkersSorted(r) && multiset(r) == multiset(s) + multiset{m}
  {
    if s == [] || !MarkerBefore(m, s[|s| - 1]) then
      AppendSorted(s, m);
      s + [m]
    else
      var init := s[..|s| - 1];
      SortedPrefix(s);
      var r0 := InsertMarker(init, m);
      InsertMarkerStep(s, m, r0);
      r0 + [s[|s| - 1]]
  }

  lemma SortedPrefix(s: seq<Marker>)
    requires MarkersSorted(s) && s != []
    ensures MarkersSorted(s[..|s| - 1])
  {
  }

  lemma AppendSorted(s: seq<Marker>, m: Marker)
    requires MarkersSorted(s) && (s == [] || !MarkerBefore(m, s[|s| - 1]))
    ensures MarkersSorted(s + [m])
  {
  }

  /** Putting the old last element back after the insertion into the rest keeps the order. */
  lemma InsertMarkerStep(s: seq<Marker>, m: Marker, r0: seq<Marker>)
    requires MarkersSorted(s) && s != [] && MarkerBefore(m, s[|s| - 1])
    requires MarkersSorted(r0) && multiset(r0) == multiset(s[..|s| - 1]) + multiset{m}
    ensures MarkersSorted(r0 + [s[|s| - 1]])
    ensures multiset(r0 + [s[|s| - 1]]) == multiset(s) + multiset{m}
  {
    var init := s[..|s| - 1];
    var last := s[|s| - 1];
    forall i | 0 <= i < |r0| ensures !MarkerBefore(last, r0[i]) {
      assert r0[i] in multiset(r0);
      if r0[i] != m {
        assert r0[i] in init;
        var k :| 0 <= k < |init| && init[k] == r0[i];
        assert s[k] == init[k];
      }
    }
    assert s == init + [last];
  }

  function SortMarkers(ms: seq<Marker>): (r: seq<Marker>)
    ensures MarkersSorted(r) && multiset(r) == multiset(ms)
  {
    if ms == [] then []
    else
      assert ms == ms[..|ms| - 1] + [ms[|ms| - 1]];
      InsertMarker(SortMarkers(ms[..|ms| - 1]), ms[|ms| - 1])
  }

  function InsertRange(s: seq<DocRange>, e: DocRange): (r: seq<DocRange>)
    requires SortedByFrom(s)
    ensures SortedByFrom(r) && multiset(r) == multiset(s) + multiset{e}
  {
    if s == [] || e.from >= s[|s| - 1].from then
      AppendRangeSorted(s, e);
      s + [e]
    else
      var init := s[..|s| - 1];
      RangesPrefixSorted(s);
      var r0 := InsertRange(init, e);
      InsertRangeStep(s, e, r0);
      r0 + [s[|s| - 1]]
  }

  lemma RangesPrefixSorted(s: seq<DocRange>)
    requires SortedByFrom(s) && s != []
    ensures SortedByFrom(s[..|s| - 1])
  {
  }

  lemma AppendRangeSorted(s: seq<DocRange>, e: DocRange)
    requires SortedByFrom(s) && (s == [] || e.from >= s[|s| - 1].from)
    ensures SortedByFrom(s + [e])
  {
  }

  lemma InsertRangeStep(s: seq<DocRange>, e: DocRange, r0: seq<DocRange>)
    requires SortedByFrom(s) && s != [] && e.from < s[|s| - 1].from
    requires SortedByFrom(r0) && multiset(r0) == multiset(s[..|s| - 1]) + multiset{e}
    ensures SortedByFrom(r0 + [s[|s| - 1]])
    ensures multiset(r0 + [s[|s| - 1]]) == multiset(s) + multiset{e}
  {
    var init := s[..|s| - 1];
    var last := s[|s| - 1];
    forall i | 0 <= i < |r0| ensures r0[i].from <= last.from {
      assert r0[i] in multiset(r0);
      if r0[i] != e {
        assert r0[i] in init;
        var k :| 0 <= k < |init| && init[k] == r0[i];
        assert s[k] == init[k];
      }
    }
    assert s == init + [last];
  }

  /** `(a, b) => a.from - b.from`. */
  function SortRanges(rs: seq<DocRange>): (r: seq<DocRange>)
    ensures SortedByFrom(r) && multiset(r) == multiset(rs)
  {
    if rs == [] then []
    else
      assert rs == rs[..|rs| - 1] + [rs[|rs| - 1]];
      InsertRange(SortRanges(rs[..|rs| - 1]), rs[|rs| - 1])
  }

  // ---------------------------------------------------------------------------
  // Excluded ranges

  predicate Overlaps(e: DocRange, r: DocRange) {
    e.to > r.from && e.from < r.to
  }

  /** What the `isRangeExcluded` loop answers: ranges ending before `r` are skipped, the
    * scan stops at the first range starting at or after `r.to`, any other range hits. */
  function ScanExcluded(r: DocRange, ex: seq<DocRange>): bool {
    if ex == [] then false
    else if ex[0].to <= r.from then ScanExcluded(r, ex[1..])
    else if ex[0].from >= r.to then false
    else true
  }

  /** A hit is always an overlap; with the ranges sorted by start every overlap is found. */
  lemma {:induction false} ScanExcludedIff(r: DocRange, ex: seq<DocRange>)
    ensures ScanExcluded(r, ex) ==> exists j :: 0 <= j < |ex| && Overlaps(ex[j], r)
    ensures SortedByFrom(ex) && (exists j :: 0 <= j < |ex| && Overlaps(ex[j], r)) ==> ScanExcluded(r, ex)
  {
    if ex != [] {
      ScanExcludedIff(r, ex[1..]);
      if ScanExcluded(r, ex) && ex[0].to <= r.from {
        var j :| 0 <= j < |ex[1..]| && Overlaps(ex[1..][j], r);
        assert Overlaps(ex[j + 1], r);
      }
      if SortedByFrom(ex) && (exists j :: 0 <= j < |ex| && Overlaps(ex[j], r)) {
        var j :| 0 <= j < |ex| && Overlaps(ex[j], r);
        if ex[0].to <= r.from {
          assert j > 0;
          assert Overlaps(ex[1..][j - 1], r);
        }
      }
    }
  }

  method IsRangeExcluded(r: DocRange, ex: seq<DocRange>) returns (b: bool)
    ensures b == ScanExcluded(r, ex)
  {
    for i := 0 to |ex|
      invariant ScanExcluded(r, ex) == ScanExcluded(r, ex[i..])
    {
      assert ex[i..][1..] == ex[i + 1..];
      if ex[i].to <= r.from {
        continue;
      }
      if ex[i].from >= r.to {
        break;
      }
      return true;
    }
    return false;
  }

  function Min(a: int, b: int): int { if a <= b then a else b }
  function Max(a: int, b: int): int { if a >= b then a else b }

  /** What remains of `[cur, r.to)` after the last exclusion. */
  function Tail(r: DocRange, cur: int): seq<DocRange> {
    if cur < r.to then [DocRange(cur, r.to)] else []
  }

  /** The segments `splitRangeByExcludedRanges` pushes when its cursor stands at `cur` and
    * `ex` are the exclusions still to visit. */
  function SplitFrom(r: DocRange, ex: seq<DocRange>, cur: int): seq<DocRange>
    decreases |ex|
  {
    if ex == [] then Tail(r, cur)
    else if ex[0].to <= cur then SplitFrom(r, ex[1..], cur)
    else if ex[0].from >= r.to then Tail(r, cur)
    else
      var segTo := Min(ex[0].from, r.to);
      var pre := if cur < segTo then [DocRange(cur, segTo)] else [];
      var next := Max(cur, ex[0].to);
      if next >= r.to then pre + Tail(r, next) else pre + SplitFrom(r, ex[1..], next)
  }

  /** `splitRangeByExcludedRanges(range, excludedRanges)`. */
  method SplitRangeByExcludedRanges(r: DocRange, ex: seq<DocRange>) returns (segments: seq<DocRange>)
    ensures segments == SplitFrom(r, ex, r.from)
  {
    segments := [];
    var cur := r.from;
    var i := 0;
    while i < |ex|
      invariant 0 <= i <= |ex|
      invariant segments + SplitFrom(r, ex[i..], cur) == SplitFrom(r, ex, r.from)
    {
      var e := ex[i];
      assert ex[i..][1..] == ex[i + 1..];
      if e.to <= cur {
        i := i + 1;
        continue;
      }
      if e.from >= r.to {
        break;
      }
      var segTo := Min(e.from, r.to);
      if cur < segTo {
        segments := segments + [DocRange(cur, segTo)];
      }
      cur := Max(cur, e.to);
      if cur >= r.to {
        break;
      }
      i := i + 1;
    }
    if cur < r.to {
      segments := segments + [DocRange(cur, r.to)];
    }
  }

  /** Segments are non-empty, inside `[cur, r.to)`, and in order without overlap. */
  predicate SegmentsOrdered(segs: seq<DocRange>, lo: int, hi: int) {
    (forall i :: 0 <= i < |segs| ==> lo <= segs[i].from < segs[i].to <= hi)
    && forall i, j :: 0 <= i < j < |segs| ==> segs[i].to <= segs[j].from
  }

  lemma {:induction false} SplitOrdered(r: DocRange, ex: seq<DocRange>, cur: int)
    requires forall j :: 0 <= j < |ex| ==> ex[j].from <= ex[j].to
    ensures SegmentsOrdered(SplitFrom(r, ex, cur), cur, r.to)
    decreases |ex|
  {
    if ex != [] && ex[0].to > cur && ex[0].from < r.to {
      var next := Max(cur, ex[0].to);
      if next < r.to {
        SplitOrdered(r, ex[1..], next);
      }
    } else if ex != [] && ex[0].to <= cur {
      SplitOrdered(r, ex[1..], cur);
    }
  }

  /** With the exclusions sorted by start, the segments cover exactly the positions of
    * `[cur, r.to)` that no exclusion holds. */
  lemma {:induction false} SplitCovers(r: DocRange, ex: seq<DocRange>, cur: int, p: int)
    requires SortedByFrom(ex)
    ensures Covered(SplitFrom(r, ex, cur), p) <==> cur <= p < r.to && !Covered(ex, p)
    decreases |ex|
  {
    var segs := SplitFrom(r, ex, cur);
    if ex == [] {
      TailCovers(r, cur, p);
    } else if ex[0].to <= cur {
      SplitCovers(r, ex[1..], cur, p);
      CoveredCons(ex, p);
    } else if ex[0].from >= r.to {
      TailCovers(r, cur, p);
      CoveredCons(ex, p);
    } else {
      var segTo := Min(ex[0].from, r.to);
      var pre := if cur < segTo then [DocRange(cur, segTo)] else [];
      var next := Max(cur, ex[0].to);
      var rest := if next >= r.to then Tail(r, next) else SplitFrom(r, ex[1..], next);
      assert segs == pre + rest;
      CoveredAppend(pre, rest, p);
      CoveredCons(ex, p);
      if next < r.to {
        SplitCovers(r, ex[1..], next, p);
      } else {
        TailCovers(r, next, p);
      }
      if pre != [] {
        assert Covered(pre, p) <==> Holds(pre[0], p) by {
          if Holds(pre[0], p) { assert 0 < |pre|; }
        }
      }
    }
  }

  lemma TailCovers(r: DocRange, cur: int, p: int)
    ensures Covered(Tail(r, cur), p) <==> cur <= p < r.to
  {
    if cur <= p < r.to {
      assert Holds(Tail(r, cur)[0], p);
    }
  }

  lemma CoveredCons(ex: seq<DocRange>, p: int)
    requires ex != []
    ensures Covered(ex, p) <==> Holds(ex[0], p) || Covered(ex[1..], p)
  {
    if Covered(ex, p) && !Holds(ex[0], p) {
      var j :| 0 <= j < |ex| && Holds(ex[j], p);
      assert Holds(ex[1..][j - 1], p);
    }
    if Covered(ex[1..], p) {
      var j :| 0 <= j < |ex[1..]| && Holds(ex[1..][j], p);
      assert Holds(ex[j + 1], p);
    }
  }

  lemma CoveredAppend(a: seq<DocRange>, b: seq<DocRange>, p: int)
    ensures Covered(a + b, p) <==> Covered(a, p) || Covered(b, p)
  {
    if Covered(a + b, p) {
      var j :| 0 <= j < |a + b| && Holds((a + b)[j], p);
      if j >= |a| {
        assert Holds(b[j - |a|], p);
      }
    }
    if Covered(b, p) {
      var j :| 0 <= j < |b| && Holds(b[j], p);
      assert Holds((a + b)[j + |a|], p);
    }
    if Covered(a, p) {
      var j :| 0 <= j < |a| && Holds(a[j], p);
      assert Holds((a + b)[j], p);
    }
  }

  // ---------------------------------------------------------------------------
  // Pairing

  /** Index of the topmost opener with `tag`, or -1. */
  function LastWithTag(stack: seq<Marker>, tag: Tag): (i: int)
    ensures -1 <= i < |stack|
    ensures i >= 0 ==> stack[i].tag == tag
    ensures forall j :: i < j < |stack| ==> stack[j].tag != tag
  {
    if stack == [] then -1
    else if stack[|stack| - 1].tag == tag then |stack| - 1
    else LastWithTag(stack[..|stack| - 1], tag)
  }

  /** `popMatchingOpenMarker(stack, tag)`: the topmost opener with the tag, with it and every
    * marker above it removed from the stack; nothing when no opener has the tag. */
  method PopMatchingOpenMarker(stack: seq<Marker>, tag: Tag) returns (opener: Option<Marker>, rest: seq<Marker>)
    ensures var i := LastWithTag(stack, tag);
      if i < 0 then opener.None? && rest == stack
      else opener == Some(stack[i]) && rest == stack[..i]
  {
    var index := |stack| - 1;
    while index >= 0
      invariant -1 <= index < |stack|
      invariant forall j :: index < j < |stack| ==> stack[j].tag != tag
    {
      if stack[index].tag != tag {
        index := index - 1;
        continue;
      }
      LastWithTagIs(stack, tag, index);
      return Some(stack[index]), stack[..index];
    }
    LastWithTagIs(stack, tag, -1);
    return None, stack;
  }

  lemma {:induction false} LastWithTagIs(stack: seq<Marker>, tag: Tag, i: int)
    requires -1 <= i < |stack| && (i >= 0 ==> stack[i].tag == tag)
    requires forall j :: i < j < |stack| ==> stack[j].tag != tag
    ensures LastWithTag(stack, tag) == i
  {
    if stack != [] && i < |stack| - 1 {
      LastWithTagIs(stack[..|stack| - 1], tag, i);
    }
  }

  /** A marker is ignored when empty or when it touches an excluded range. */
  predicate Usable(m: Marker, ex: seq<DocRange>) {
    m.from < m.to && !exists j :: 0 <= j < |ex| && Overlaps(ex[j], DocRange(m.from, m.to))
  }

  /** The pairing loop over the markers still to visit, given the opener stack. */
  function PairsFrom(ms: seq<Marker>, ex: seq<DocRange>, stack: seq<Marker>): seq<TagPair>
    decreases |ms|
  {
    if ms == [] then []
    else
      var m := ms[0];
      if !Usable(m, ex) then PairsFrom(ms[1..], ex, stack)
      else if m.kind == Open then PairsFrom(ms[1..], ex, stack + [m])
      else
        var i := LastWithTag(stack, m.tag);
        if i < 0 then PairsFrom(ms[1..], ex, stack)
        else
          var o := stack[i];
          if o.to > m.from then PairsFrom(ms[1..], ex, stack[..i])
          else [PairOf(o, m)] + PairsFrom(ms[1..], ex, stack[..i])
  }

  function PairOf(o: Marker, c: Marker): TagPair {
    TagPair(c.tag, DocRange(o.from, o.to), DocRange(c.from, c.to), DocRange(o.to, c.from), DocRange(o.from, c.to))
  }

  /** `pairInlineHtmlTagMarkers`: markers sorted by position, exclusions sorted by start,
    * a range checker for the two marker ends, then the stack walk. */
  method PairInlineHtmlTagMarkers(markers: seq<Marker>, excluded: seq<DocRange>) returns (pairs: seq<TagPair>)
    ensures pairs == PairsFrom(SortMarkers(markers), SortRanges(excluded), [])
  {
    var sorted := SortMarkers(markers);
    var ex := SortRanges(excluded);
    var isInExcluded := new RangeChecker(ex);
    var stack: seq<Marker> := [];
    pairs := [];
    for k := 0 to |sorted|
      invariant isInExcluded.Valid() && isInExcluded.ranges == ex
      invariant pairs + PairsFrom(sorted[k..], ex, stack) == PairsFrom(sorted, ex, [])
    {
      assert sorted[k..] == [sorted[k]] + sorted[k + 1..];
      stack, pairs := PairMarker(sorted[k], sorted[k + 1..], ex, isInExcluded, stack, pairs);
    }
  }

  /** One turn of the pairing loop: skip an empty or excluded marker, push an opener, or pop
    * the matching opener and record the pair when the two do not overlap. */
  method PairMarker(m: Marker, ghost rest: seq<Marker>, ex: seq<DocRange>, isInExcluded: RangeChecker,
                    stack0: seq<Marker>, pairs0: seq<TagPair>) returns (stack: seq<Marker>, pairs: seq<TagPair>)
    requires isInExcluded.Valid() && isInExcluded.ranges == ex && SortedByFrom(ex)
    modifies isInExcluded
    ensures isInExcluded.Valid()
    ensures pairs + PairsFrom(rest, ex, stack) == pairs0 + PairsFrom([m] + rest, ex, stack0)
  {
    stack, pairs := stack0, pairs0;
    assert ([m] + rest)[1..] == rest;
    if m.from >= m.to {
      return;
    }
    var mr := DocRange(m.from, m.to);
    var atStart := isInExcluded.Check(m.from);
    if atStart {
      UsableHit(m, ex, m.from);
      return;
    }
    var atEnd := isInExcluded.Check(m.to - 1);
    if atEnd {
      UsableHit(m, ex, m.to - 1);
      return;
    }
    var hit := IsRangeExcluded(mr, ex);
    ScanExcludedIff(mr, ex);
    if hit {
      return;
    }
    assert Usable(m, ex);
    if m.kind == Open {
      stack := stack + [m];
      return;
    }
    var opener, remaining := PopMatchingOpenMarker(stack, m.tag);
    stack := remaining;
    if opener.None? {
      return;
    }
    var o := opener.value;
    if o.to > m.from {
      return;
    }
    pairs := pairs + [TagPair(m.tag, DocRange(o.from, o.to), mr, DocRange(o.to, m.from), DocRange(o.from, m.to))];
  }

  /** A position of the marker held by an exclusion makes the marker unusable. */
  lemma UsableHit(m: Marker, ex: seq<DocRange>, p: int)
    requires m.from <= p < m.to && Covered(ex, p)
    ensures !Usable(m, ex)
  {
    var j :| 0 <= j < |ex| && Holds(ex[j], p);
    assert Overlaps(ex[j], DocRange(m.from, m.to));
  }

  /** Openers on the stack are usable open markers. */
  predicate StackOk(stack: seq<Marker>, ex: seq<DocRange>) {
    forall i :: 0 <= i < |stack| ==> stack[i].kind == Open && Usable(stack[i], ex)
  }

  /** What every pair satisfies: an open and a close marker of the pair's tag, both usable,
    * the opener ending no later than the closer starts, the content between them and the
    * range spanning both. */
  predicate PairOk(p: TagPair, ex: seq<DocRange>) {
    p.open.from < p.open.to <= p.close.from < p.close.to
    && p.content == DocRange(p.open.to, p.close.from)
    && p.range == DocRange(p.open.from, p.close.to)
    && (forall j :: 0 <= j < |ex| ==> !Overlaps(ex[j], p.open) && !Overlaps(ex[j], p.close))
  }

  lemma {:induction false} PairsWellFormed(ms: seq<Marker>, ex: seq<DocRange>, stack: seq<Marker>)
    requires StackOk(stack, ex)
    ensures forall k :: 0 <= k < |PairsFrom(ms, ex, stack)| ==> PairOk(PairsFrom(ms, ex, stack)[k], ex)
    decreases |ms|
  {
    if ms != [] {
      var m := ms[0];
      if !Usable(m, ex) {
        PairsWellFormed(ms[1..], ex, stack);
      } else if m.kind == Open {
        PairsWellFormed(ms[1..], ex, stack + [m]);
      } else {
        var i := LastWithTag(stack, m.tag);
        if i < 0 {
          PairsWellFormed(ms[1..], ex, stack);
        } else {
          PairsWellFormed(ms[1..], ex, stack[..i]);
        }
      }
    }
  }

  /** Every pair the method returns is well formed. */
  lemma PairsOk(markers: seq<Marker>, excluded: seq<DocRange>)
    ensures var ps := PairsFrom(SortMarkers(markers), SortRanges(excluded), []);
      forall k :: 0 <= k < |ps| ==> PairOk(ps[k], SortRanges(excluded))
  {
    PairsWellFormed(SortMarkers(markers), SortRanges(excluded), []);
  }

  /** Malformed nesting: in `<u><sup>…</u></sup>` the `</u>` pairs with `<u>` and drops the
    * `<sup>` above it, so `</sup>` finds no opener. */
  lemma MalformedNestingRecovers()
    ensures PairsFrom([Marker(Open, U, 0, 3), Marker(Open, Sup, 3, 8), Marker(Close, U, 9, 13), Marker(Close, Sup, 13, 19)], [], [])
      == [PairOf(Marker(Open, U, 0, 3), Marker(Close, U, 9, 13))]
  {
    var u := Marker(Open, U, 0, 3);
    var sup := Marker(Open, Sup, 3, 8);
    var cu := Marker(Close, U, 9, 13);
    var csup := Marker(Close, Sup, 13, 19);
    var ms := [u, sup, cu, csup];
    assert ms[1..] == [sup, cu, csup] && ms[1..][1..] == [cu, csup] && ms[1..][1..][1..] == [csup];
    assert [csup][1..] == [];
    var none: seq<Marker> := [];
    assert PairsFrom([csup], [], none) == [] by {
      assert LastWithTag(none, Sup) == -1;
    }
    var s2 := [u, sup];
    assert LastWithTag(s2, U) == 0 by {
      assert s2[..1] == [u];
    }
    assert s2[..0] == none;
    assert PairsFrom([cu, csup], [], s2) == [PairOf(u, cu)];
    assert PairsFrom([sup, cu, csup], [], [u]) == [PairOf(u, cu)] by {
      assert [u] + [sup] == s2;
    }
    assert none + [u] == [u];
  }

  // ---------------------------------------------------------------------------
  // Decorations

  function StyleSegments(tag: Tag, segs: seq<DocRange>): (r: seq<Deco>)
    ensures |r| == |segs|
    ensures forall i :: 0 <= i < |segs| ==> r[i] == ContentStyle(tag, segs[i].from, segs[i].to)
  {
    if segs == [] then [] else [ContentStyle(tag, segs[0].from, segs[0].to)] + StyleSegments(tag, segs[1..])
  }

  /** The decorations of one pair: its content segments styled, then both markers hidden
    * when the selection is outside the pair, dimmed when it is inside. */
  function PairDecorations(p: TagPair, sel: DocRange, ex: seq<DocRange>): seq<Deco> {
    StyleSegments(p.tag, SplitFrom(p.content, ex, p.content.from))
    + if !IsSelectionInRange(sel, p.range.from, p.range.to)
      then [HideMarker(p.open.from, p.open.to), HideMarker(p.close.from, p.close.to)]
      else [DimMarker(p.open.from, p.open.to), DimMarker(p.close.from, p.close.to)]
  }

  function AllDecorations(ps: seq<TagPair>, sel: DocRange, ex: seq<DocRange>): seq<Deco> {
    if ps == [] then [] else PairDecorations(ps[0], sel, ex) + AllDecorations(ps[1..], sel, ex)
  }

  /** One iteration of the loop over pairs. */
  method AppendPairDecorations(ds: seq<Deco>, p: TagPair, sel: DocRange, ex: seq<DocRange>) returns (out: seq<Deco>)
    ensures out == ds + PairDecorations(p, sel, ex)
  {
    var revealInline := IsSelectionInRange(sel, p.range.from, p.range.to);
    var segs := SplitRangeByExcludedRanges(p.content, ex);
    out := ds;
    for k := 0 to |segs|
      invariant out == ds + StyleSegments(p.tag, segs[..k])
    {
      StyleSegmentsSnoc(p.tag, segs, k);
      out := out + [ContentStyle(p.tag, segs[k].from, segs[k].to)];
    }
    assert segs[..|segs|] == segs;
    if !revealInline {
      out := out + [HideMarker(p.open.from, p.open.to), HideMarker(p.close.from, p.close.to)];
    } else {
      out := out + [DimMarker(p.open.from, p.open.to), DimMarker(p.close.from, p.close.to)];
    }
  }

  /** `appendInlineHtmlTagDecorations`: the caller's list with every pair's decorations
    * appended, pair by pair. */
  method AppendInlineHtmlTagDecorations(decorations: seq<Deco>, sel: DocRange, markers: seq<Marker>, excluded: seq<DocRange>)
    returns (out: seq<Deco>)
    ensures out == decorations + AllDecorations(PairsFrom(SortMarkers(markers), SortRanges(SortRanges(excluded)), []), sel, SortRanges(excluded))
  {
    var ex := SortRanges(excluded);
    var pairs := PairInlineHtmlTagMarkers(markers, ex);
    out := decorations;
    for k := 0 to |pairs|
      invariant out + AllDecorations(pairs[k..], sel, ex) == decorations + AllDecorations(pairs, sel, ex)
    {
      DecorationsStep(out, pairs, k, sel, ex);
      out := AppendPairDecorations(out, pairs[k], sel, ex);
    }
  }

  lemma DecorationsStep(out: seq<Deco>, pairs: seq<TagPair>, k: nat, sel: DocRange, ex: seq<DocRange>)
    requires k < |pairs|
    ensures (out + PairDecorations(pairs[k], sel, ex)) + AllDecorations(pairs[k + 1..], sel, ex)
      == out + AllDecorations(pairs[k..], sel, ex)
  {
    assert pairs[k..][1..] == pairs[k + 1..];
    var a := PairDecorations(pairs[k], sel, ex);
    var b := AllDecorations(pairs[k + 1..], sel, ex);
    assert AllDecorations(pairs[k..], sel, ex) == a + b;
    assert (out + a) + b == out + (a + b);
  }

  lemma StyleSegmentsSnoc(tag: Tag, segs: seq<DocRange>, s: nat)
    requires s < |segs|
    ensures StyleSegments(tag, segs[..s + 1]) == StyleSegments(tag, segs[..s]) + [ContentStyle(tag, segs[s].from, segs[s].to)]
  {
  }

  /** For each pair, its content is styled exactly outside the exclusions, and its markers
    * are hidden iff the selection is outside the pair. */
  lemma PairDecorationsFacts(p: TagPair, sel: DocRange, ex: seq<DocRange>, q: int)
    requires SortedByFrom(ex)
    ensures var ds := PairDecorations(p, sel, ex);
      (exists i :: 0 <= i < |ds| && ds[i].ContentStyle? && ds[i].from <= q < ds[i].to)
        <==> p.content.from <= q < p.content.to && !Covered(ex, q)
    ensures var ds := PairDecorations(p, sel, ex);
      ds[|ds| - 2..] == (if IsSelectionInRange(sel, p.range.from, p.range.to)
                          then [DimMarker(p.open.from, p.open.to), DimMarker(p.close.from, p.close.to)]
                          else [HideMarker(p.open.from, p.open.to), HideMarker(p.close.from, p.close.to)])
  {
    var segs := SplitFrom(p.content, ex, p.content.from);
    var ds := PairDecorations(p, sel, ex);
    var styled := StyleSegments(p.tag, segs);
    assert ds[..|styled|] == styled;
    SplitCovers(p.content, ex, p.content.from, q);
    if exists i :: 0 <= i < |ds| && ds[i].ContentStyle? && ds[i].from <= q < ds[i].to {
      var i :| 0 <= i < |ds| && ds[i].ContentStyle? && ds[i].from <= q < ds[i].to;
      assert i < |styled|;
      assert Holds(segs[i], q);
    }
    if Covered(segs, q) {
      var i :| 0 <= i < |segs| && Holds(segs[i], q);
      assert ds[i] == styled[i];
    }
  }
}
