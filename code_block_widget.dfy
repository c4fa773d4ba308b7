/**
 * The rendered code block: Prism's token tree is turned into coloured mark decorations over
 * the code text, and the language badge opens a popover whose input filters the known
 * languages and, on commit, rewrites the fence's info string. Prism's tokeniser is outside
 * the model: its output tree is an input.
 */
module CodeBlockWidget {
  import opened Wrappers
  import opened Strings
  import opened TextDoc

  /** The colours of `getCodeBlockPalette` that tokens use. */
  datatype Palette = Palette(keyword: string, str: string, comment: string, func: string,
                             number: string, punctuation: string)

  /** `getCodeBlockPalette`: the One Dark colours in dark mode, One Light otherwise. */
  function CodeBlockPalette(isDark: bool): Palette {
    if isDark then Palette("#c678dd", "#98c379", "#5c6370", "#61afef", "#d19a66", "#abb2bf")
    else Palette("#a626a4", "#50a14f", "#a0a1a7", "#4078f2", "#986801", "#383a42")
  }

  /** The token types `getPrismTokenColor` colours. */
  const ColouredTypes: set<string> := {
    "keyword", "tag", "builtin", "string", "char", "template-string", "comment", "prolog",
    "doctype", "function", "class-name", "number", "boolean", "operator", "punctuation",
    "attr-name", "property", "attr-value"}

  /** `getPrismTokenColor`. */
  function TokenColor(t: string, p: Palette): Option<string> {
    if t == "keyword" || t == "tag" || t == "builtin" then Some(p.keyword)
    else if t == "string" || t == "char" || t == "template-string" then Some(p.str)
    else if t == "comment" || t == "prolog" || t == "doctype" then Some(p.comment)
    else if t == "function" || t == "class-name" then Some(p.func)
    else if t == "number" || t == "boolean" then Some(p.number)
    else if t == "operator" || t == "punctuation" then Some(p.punctuation)
    else if t == "attr-name" || t == "property" then Some(p.keyword)
    else if t == "attr-value" then Some(p.str)
    else None
  }

  /** Exactly the listed types get a colour, and the colour is a palette entry: markup
    * names share the keyword colour, attribute values the string colour. */
  lemma TokenColorCovers(t: string, p: Palette)
    ensures TokenColor(t, p).Some? <==> t in ColouredTypes
    ensures TokenColor(t, p).Some? ==>
      TokenColor(t, p).value in {p.keyword, p.str, p.comment, p.func, p.number, p.punctuation}
    ensures t in {"tag", "builtin", "attr-name", "property"} ==> TokenColor(t, p) == Some(p.keyword)
    ensures t in {"char", "template-string", "attr-value"} ==> TokenColor(t, p) == Some(p.str)
  {
  }

  /** A Prism token stream element: a plain string, or a typed token whose content is a
    * string, a nested stream, or a single token. */
  datatype PrismToken = Plain(text: string) | Tok(kind: string, content: Content)
  datatype Content = Text(s: string) | Nested(tokens: seq<PrismToken>) | Single(token: PrismToken)

  /** A colour mark over `[from, to)`. */
  datatype Mark = Mark(from: nat, to: nat, color: string)

  /** The length of the text a token covers. */
  function TokenLength(t: PrismToken): nat
    decreases t, 1
  {
    match t
    case Plain(s) => |s|
    case Tok(_, c) =>
      match c
      case Text(s) => |s|
      case Nested(ts) => TokensLength(ts)
      case Single(u) => TokenLength(u)
  }

  function TokensLength(ts: seq<PrismToken>): nat
    decreases ts, 0
  {
    if ts == [] then 0 else TokenLength(ts[0]) + TokensLength(ts[1..])
  }

  /** The marks a token at `pos` produces, in the order they are pushed: the nested marks
    * first, then the token's own mark when its type has a colour. */
  function TokenMarks(t: PrismToken, pos: nat, p: Palette): seq<Mark>
    decreases t, 1
  {
    match t
    case Plain(_) => []
    case Tok(kind, c) =>
      var inner :=
        match c
        case Text(_) => []
        case Nested(ts) => TokensMarks(ts, pos, p)
        case Single(u) => TokenMarks(u, pos, p);
      var color := TokenColor(kind, p);
      inner + if color.Some? then [Mark(pos, pos + TokenLength(t), color.value)] else []
  }

  function TokensMarks(ts: seq<PrismToken>, pos: nat, p: Palette): seq<Mark>
    decreases ts, 0
  {
    if ts == [] then [] else TokenMarks(ts[0], pos, p) + TokensMarks(ts[1..], pos + TokenLength(ts[0]), p)
  }

  /** Appending a token to a stream adds its length and its marks, at the stream's end. */
  lemma {:induction false} TokensSnoc(ts: seq<PrismToken>, t: PrismToken, pos: nat, p: Palette)
    ensures TokensLength(ts + [t]) == TokensLength(ts) + TokenLength(t)
    ensures TokensMarks(ts + [t], pos, p) == TokensMarks(ts, pos, p) + TokenMarks(t, pos + TokensLength(ts), p)
  {
    if ts != [] {
      assert (ts + [t])[1..] == ts[1..] + [t];
      TokensSnoc(ts[1..], t, pos + TokenLength(ts[0]), p);
    }
  }

  /** The number of typed tokens of the tree whose type has a colour. */
  function ColouredCount(t: PrismToken, p: Palette): nat
    decreases t, 1
  {
    match t
    case Plain(_) => 0
    case Tok(kind, c) =>
      (match c
       case Text(_) => 0
       case Nested(ts) => ColouredCountAll(ts, p)
       case Single(u) => ColouredCount(u, p))
      + if TokenColor(kind, p).Some? then 1 else 0
  }

  function ColouredCountAll(ts: seq<PrismToken>, p: Palette): nat
    decreases ts, 0
  {
    if ts == [] then 0 else ColouredCount(ts[0], p) + ColouredCountAll(ts[1..], p)
  }

  /** One mark per coloured token, and every mark lies inside the text the token covers. */
  lemma {:induction false} TokenMarksSound(t: PrismToken, pos: nat, p: Palette)
    ensures |TokenMarks(t, pos, p)| == ColouredCount(t, p)
    ensures forall m :: m in TokenMarks(t, pos, p) ==> pos <= m.from <= m.to <= pos + TokenLength(t)
    decreases t, 1
  {
    match t
    case Plain(_) =>
    case Tok(kind, c) =>
      match c {
        case Text(_) =>
        case Nested(ts) => TokensMarksSound(ts, pos, p);
        case Single(u) => TokenMarksSound(u, pos, p);
      }
  }

  lemma {:induction false} TokensMarksSound(ts: seq<PrismToken>, pos: nat, p: Palette)
    ensures |TokensMarks(ts, pos, p)| == ColouredCountAll(ts, p)
    ensures forall m :: m in TokensMarks(ts, pos, p) ==> pos <= m.from <= m.to <= pos + TokensLength(ts)
    decreases ts, 0
  {
    if ts != [] {
      TokenMarksSound(ts[0], pos, p);
      TokensMarksSound(ts[1..], pos + TokenLength(ts[0]), p);
    }
  }

  /** One token of the loop of `applyPrismTokens`: advances over its text, recursing into
    * nested content, then pushes its own mark when its type has a colour. */
  method ApplyToken(decorations: seq<Mark>, token: PrismToken, startPos: nat, p: Palette)
    returns (decs: seq<Mark>, pos: nat)
    ensures pos == startPos + TokenLength(token)
    ensures decs == decorations + TokenMarks(token, startPos, p)
    decreases token, 1
  {
    decs, pos := decorations, startPos;
    match token {
      case Plain(s) =>
        pos := pos + |s|;
      case Tok(kind, content) =>
        var tokenStart := pos;
        match content {
          case Nested(ts) =>
            decs, pos := ApplyPrismTokens(decs, ts, pos, p);
          case Text(s) =>
            pos := pos + |s|;
          case Single(u) =>
            decs, pos := ApplyToken(decs, u, pos, p);
        }
        var color := TokenColor(kind, p);
        if color.Some? {
          decs := decs + [Mark(tokenStart, pos, color.value)];
        }
    }
  }

  /** `applyPrismTokens`: pushes the marks of the stream onto `decorations` and returns the
    * position after the stream. */
  method ApplyPrismTokens(decorations: seq<Mark>, tokens: seq<PrismToken>, startPos: nat, p: Palette)
    returns (decs: seq<Mark>, pos: nat)
    ensures pos == startPos + TokensLength(tokens)
    ensures decs == decorations + TokensMarks(tokens, startPos, p)
    decreases tokens, 0
  {
    decs, pos := decorations, startPos;
    var i := 0;
    while i < |tokens|
      invariant i <= |tokens|
      invariant pos == startPos + TokensLength(tokens[..i])
      invariant decs == decorations + TokensMarks(tokens[..i], startPos, p)
    {
      TokensSnoc(tokens[..i], tokens[i], startPos, p);
      assert tokens[..i + 1] == tokens[..i] + [tokens[i]];
      decs, pos := ApplyToken(decs, tokens[i], pos, p);
      i := i + 1;
    }
    assert tokens[..i] == tokens;
  }

  /** `KNOWN_LANGUAGES`. */
  const KnownLanguages: seq<string> := [
    "bash", "c", "cmake", "coffeescript", "cpp", "csharp", "css", "dart", "diff", "docker",
    "elixir", "erlang", "go", "graphql", "groovy", "haskell", "html", "ini", "java",
    "javascript", "json", "jsx", "kotlin", "latex", "lua", "makefile", "markdown", "matlab",
    "mermaid", "nginx", "objectivec", "ocaml", "perl", "php", "plaintext", "powershell",
    "python", "r", "ruby", "rust", "sass", "scala", "scss", "shell", "sql", "swift", "toml",
    "tsx", "typescript", "vim", "xml", "yaml", "zig"]

  /** The most options the list shows. */
  const MaxOptions: nat := 8

  /** `langs.filter(l => l.includes(query))`. */
  function Containing(langs: seq<string>, query: string): (r: seq<string>) {
    if langs == [] then []
    else (if Contains(langs[0], query) then [langs[0]] else []) + Containing(langs[1..], query)
  }

  /** The filter keeps exactly the languages holding the query, and only those. */
  lemma {:induction false} ContainingIff(langs: seq<string>, query: string, l: string)
    ensures l in Containing(langs, query) <==> l in langs && Contains(l, query)
  {
    if langs != [] {
      ContainingIff(langs[1..], query, l);
      assert langs == [langs[0]] + langs[1..];
    }
  }

  /** The filter never lengthens the language list. */
  lemma {:induction false} ContainingShorter(langs: seq<string>, query: string)
    ensures |Containing(langs, query)| <= |langs|
  {
    if langs != [] {
      ContainingShorter(langs[1..], query);
    }
  }

  /** The query the popover filters by: the input trimmed and lower-cased. */
  function Query(input: string): string {
    ToLower(Trim(input))
  }

  /** The matching languages: all of them for an empty query. */
  function Matches(query: string): seq<string> {
    if query == "" then KnownLanguages else Containing(KnownLanguages, query)
  }

  /** `filterList`: the options shown (empty when the list is hidden). */
  function FilterOptions(input: string): (shown: seq<string>)
    ensures |shown| <= MaxOptions
  {
    var query := Query(input);
    var matches := Matches(query);
    if |matches| == 0 || (|matches| == 1 && matches[0] == query) then []
    else matches[..if |matches| < MaxOptions then |matches| else MaxOptions]
  }

  /** The shown options are known languages holding the query; the list is hidden exactly
    * when nothing matches or the only match is the query itself; otherwise it shows the
    * first matches, up to eight. */
  lemma FilterOptionsSpec(input: string)
    ensures var query := Query(input);
      forall l :: l in FilterOptions(input) ==> l in KnownLanguages && Contains(l, query)
    ensures var matches := Matches(Query(input));
      FilterOptions(input) == [] <==> |matches| == 0 || (|matches| == 1 && matches[0] == Query(input))
    ensures var matches := Matches(Query(input));
      FilterOptions(input) != [] ==> FilterOptions(input) == matches[..|FilterOptions(input)|]
    ensures var matches := Matches(Query(input));
      FilterOptions(input) != [] ==> |FilterOptions(input)| == if |matches| < MaxOptions then |matches| else MaxOptions
  {
    var query := Query(input);
    var shown := FilterOptions(input);
    forall l | l in shown
      ensures l in KnownLanguages && Contains(l, query)
    {
      if query == "" {
        assert OccursAt(l, query, 0);
      } else {
        ContainingIff(KnownLanguages, query, l);
      }
    }
  }

  /** An empty query lists the first eight known languages. */
  lemma EmptyQueryShowsFirst(input: string)
    requires Query(input) == ""
    ensures FilterOptions(input) == KnownLanguages[..MaxOptions]
  {
  }

  /** `Math.max(0, Math.min(index, count - 1))`. */
  function ClampIndex(index: int, count: nat): (r: int)
    requires count > 0
    ensures 0 <= r < count
    ensures 0 <= index < count ==> r == index
    ensures index < 0 ==> r == 0
    ensures index >= count ==> r == count - 1
  {
    if index < 0 then 0 else if index > count - 1 then count - 1 else index
  }

  datatype Key = ArrowDown | ArrowUp | Enter | Escape | Tab | OtherKey

  /** The language popover of one fence: its input text, the shown options, the active
    * option (-1 for none), whether it was committed or cancelled, and the document it edits. */
  class LanguagePopover {
    const codeInfoFrom: nat
    const codeInfoTo: nat
    const currentLang: string
    var input: string
    var options: seq<string>
    var activeIndex: int
    var committed: bool
    var doc: string

    /** Before it closes, the info range lies in the document; the active index is -1 or an
      * option's. */
    predicate Valid()
      reads this
    {
      (!committed ==> codeInfoFrom <= codeInfoTo <= |doc|)
      && -1 <= activeIndex < |options|
    }

    /** `showLanguagePopover`: the input starts as the current language, no option shown. */
    constructor (doc: string, codeInfoFrom: nat, codeInfoTo: nat, currentLang: string)
      requires codeInfoFrom <= codeInfoTo <= |doc|
      ensures Valid() && !committed && activeIndex == -1 && options == []
      ensures this.doc == doc && input == currentLang
      ensures this.codeInfoFrom == codeInfoFrom && this.codeInfoTo == codeInfoTo && this.currentLang == currentLang
    {
      this.codeInfoFrom := codeInfoFrom;
      this.codeInfoTo := codeInfoTo;
      this.currentLang := currentLang;
      input := currentLang;
      options := [];
      activeIndex := -1;
      committed := false;
      this.doc := doc;
    }

    /** `filterList`: rebuilds the options from the input and clears the active option. */
    method FilterList()
      requires Valid()
      modifies this
      ensures Valid() && options == FilterOptions(input) && activeIndex == -1
      ensures input == old(input) && committed == old(committed) && doc == old(doc)
    {
      options := FilterOptions(input);
      activeIndex := -1;
    }

    /** Typing into the input re-filters the list. */
    method SetInput(text: string)
      requires Valid()
      modifies this
      ensures Valid() && input == text && options == FilterOptions(text) && activeIndex == -1
      ensures committed == old(committed) && doc == old(doc)
    {
      input := text;
      FilterList();
    }

    /** `setActive`: with options shown, the index is clamped onto one of them. */
    method SetActive(index: int)
      requires Valid()
      modifies this
      ensures Valid() && options == old(options) && input == old(input)
      ensures committed == old(committed) && doc == old(doc)
      ensures old(options) == [] ==> activeIndex == old(activeIndex)
      ensures old(options) != [] ==> activeIndex == ClampIndex(index, |options|)
    {
      if |options| == 0 {
        return;
      }
      activeIndex := ClampIndex(index, |options|);
    }

    /** `commit`: only the first commit or cancel acts; it closes the popover and replaces the
      * info string by the normalised input when that differs from the current language. */
    method Commit()
      requires Valid()
      modifies this
      ensures Valid() && committed
      ensures input == old(input) && options == old(options) && activeIndex == old(activeIndex)
      ensures old(committed) ==> doc == old(doc)
      ensures !old(committed) ==>
        doc == if Query(input) != currentLang then Replace(old(doc), codeInfoFrom, codeInfoTo, Query(input)) else old(doc)
    {
      if committed {
        return;
      }
      committed := true;
      var newLang := Query(input);
      if newLang != currentLang {
        doc := Replace(doc, codeInfoFrom, codeInfoTo, newLang);
      }
    }

    /** `cancel`: closes the popover without editing the document. */
    method Cancel()
      requires Valid()
      modifies this
      ensures Valid() && committed && doc == old(doc)
      ensures input == old(input) && options == old(options) && activeIndex == old(activeIndex)
    {
      if committed {
        return;
      }
      committed := true;
    }

    /** The keydown handler: the arrows move the active option, Enter takes the active
      * option (if any) and commits, Escape cancels, Tab takes the active option and
      * re-filters. */
    method KeyDown(key: Key)
      requires Valid()
      modifies this
      ensures Valid()
      ensures committed == (old(committed) || key == Enter || key == Escape)
      ensures key == Escape ==> doc == old(doc)
      ensures old(committed) ==> doc == old(doc)
      ensures key == Tab && 0 <= old(activeIndex) < |old(options)| ==>
        input == old(options)[old(activeIndex)] && options == FilterOptions(input)
      ensures key == Enter && !old(committed) ==>
        var taken := if 0 <= old(activeIndex) < |old(options)| then old(options)[old(activeIndex)] else old(input);
        doc == if Query(taken) != currentLang then Replace(old(doc), codeInfoFrom, codeInfoTo, Query(taken)) else old(doc)
    {
      match key {
        case ArrowDown =>
          SetActive(activeIndex + 1);
        case ArrowUp =>
          SetActive(activeIndex - 1);
        case Enter =>
          if 0 <= activeIndex < |options| {
            input := options[activeIndex];
          }
          Commit();
        case Escape =>
          Cancel();
        case Tab =>
          if 0 <= activeIndex < |options| {
            input := options[activeIndex];
            FilterList();
          }
        case OtherKey =>
      }
    }
  }

  /** Once the popover has closed, no later commit, cancel or key changes the document. */
  method AtMostOnce(pop: LanguagePopover, key: Key)
    requires pop.Valid() && pop.committed
    modifies pop
    ensures pop.doc == old(pop.doc) && pop.committed
  {
    pop.Commit();
    pop.Cancel();
    pop.KeyDown(key);
  }
}
