/**
 * The editor store of `src/stores/editorStore.ts`: the document text, the file it belongs
 * to, the dirty flag, the view mode and the word count and reading time shown in the
 * status bar.
 */
module EditorStore {
  import opened Wrappers
  import opened Strings

  datatype EditorMode = Split | Source | Live | Zen

  /** The index of the first whitespace character, or `|s|` when there is none. */
  function FirstSpace(s: string): (i: nat)
    ensures i <= |s|
    ensures forall j :: 0 <= j < i ==> !IsSpace(s[j])
    ensures i < |s| ==> IsSpace(s[i])
  {
    if s == [] || IsSpace(s[0]) then 0 else 1 + FirstSpace(s[1..])
  }

  /** The text after its leading run of whitespace. */
  function SkipSpaces(s: string): (r: string)
    ensures |r| <= |s|
    ensures r != [] ==> !IsSpace(r[0])
  {
    if s != [] && IsSpace(s[0]) then SkipSpaces(s[1..]) else s
  }

  /** `s.split(/\s+/)`: the pieces between maximal runs of whitespace; a leading or trailing
    * run leaves an empty piece at that end. */
  function SplitOnSpace(s: string): (r: seq<string>)
    ensures |r| >= 1
    decreases |s|
  {
    var i := FirstSpace(s);
    if i == |s| then [s] else [s[..i]] + SplitOnSpace(SkipSpaces(s[i + 1..]))
  }

  predicate NoSpace(w: string) {
    forall j :: 0 <= j < |w| ==> !IsSpace(w[j])
  }

  /** No piece holds whitespace. */
  lemma {:induction false} PiecesHaveNoSpace(s: string)
    ensures forall k :: 0 <= k < |SplitOnSpace(s)| ==> NoSpace(SplitOnSpace(s)[k])
    decreases |s|
  {
    var i := FirstSpace(s);
    if i < |s| {
      var rest := SkipSpaces(s[i + 1..]);
      PiecesHaveNoSpace(rest);
      assert NoSpace(s[..i]);
      assert SplitOnSpace(s) == [s[..i]] + SplitOnSpace(rest);
    } else {
      assert SplitOnSpace(s) == [s];
    }
  }

  /** `.filter(Boolean)` on strings: the non-empty ones, in order. */
  function NonEmpty(ps: seq<string>): seq<string> {
    if ps == [] then [] else (if ps[0] == "" then [] else [ps[0]]) + NonEmpty(ps[1..])
  }

  lemma {:induction false} NonEmptyAppend(a: seq<string>, b: seq<string>)
    ensures NonEmpty(a + b) == NonEmpty(a) + NonEmpty(b)
  {
    if a != [] {
      assert (a + b)[0] == a[0];
      assert (a + b)[1..] == a[1..] + b;
      NonEmptyAppend(a[1..], b);
    } else {
      assert a + b == b;
    }
  }

  lemma {:induction false} NonEmptyFacts(ps: seq<string>)
    requires forall k :: 0 <= k < |ps| ==> NoSpace(ps[k])
    ensures forall k :: 0 <= k < |NonEmpty(ps)| ==> NonEmpty(ps)[k] != "" && NoSpace(NonEmpty(ps)[k])
  {
    if ps != [] {
      NonEmptyFacts(ps[1..]);
    }
  }

  /** `content.split(/\s+/).filter(Boolean)`: the words of the text, each non-empty and
    * free of whitespace. */
  function Words(s: string): (w: seq<string>)
    ensures forall k :: 0 <= k < |w| ==> w[k] != "" && NoSpace(w[k])
  {
    PiecesHaveNoSpace(s);
    NonEmptyFacts(SplitOnSpace(s));
    NonEmpty(SplitOnSpace(s))
  }

  function WordCount(s: string): nat {
    |Words(s)|
  }

  /** An independent count: the positions where a non-space character follows whitespace
    * or the start of the text (`afterSpace` says whether the text before `s` ended in
    * whitespace or was empty). */
  function WordStarts(s: string, afterSpace: bool): nat {
    if s == [] then 0
    else (if afterSpace && !IsSpace(s[0]) then 1 else 0) + WordStarts(s[1..], IsSpace(s[0]))
  }

  lemma {:induction false} StartsNonSpaceRun(s: string, afterSpace: bool, k: nat)
    requires 0 < k <= |s|
    requires forall j :: 0 <= j < k ==> !IsSpace(s[j])
    ensures WordStarts(s, afterSpace) == (if afterSpace then 1 else 0) + WordStarts(s[k..], false)
  {
    if k > 1 {
      StartsNonSpaceRun(s[1..], false, k - 1);
      assert s[1..][k - 1..] == s[k..];
    }
  }

  /** Leading whitespace starts no word. */
  lemma {:induction false} StartsSkipSpaces(s: string)
    ensures WordStarts(s, true) == WordStarts(SkipSpaces(s), true)
  {
    if s != [] && IsSpace(s[0]) {
      StartsSkipSpaces(s[1..]);
    }
  }

  /** The word count equals the number of word starts: splitting on whitespace runs and
    * dropping empty pieces counts exactly the maximal non-space runs. */
  lemma WordCountIsWordStarts(s: string)
    ensures WordCount(s) == WordStarts(s, true)
  {
    WordsAreRuns(s);
  }

  lemma {:induction false} WordsAreRuns(s: string)
    ensures |NonEmpty(SplitOnSpace(s))| == WordStarts(s, true)
    decreases |s|
  {
    var i := FirstSpace(s);
    if i == |s| {
      OneRun(s);
    } else {
      var rest := SkipSpaces(s[i + 1..]);
      assert SplitOnSpace(s) == [s[..i]] + SplitOnSpace(rest);
      CountCons(s[..i], SplitOnSpace(rest));
      WordsAreRuns(rest);
      StartsBeforeSpace(s, i);
    }
  }

  /** A text without whitespace is one word, or none when empty. */
  lemma OneRun(s: string)
    requires FirstSpace(s) == |s|
    ensures |NonEmpty(SplitOnSpace(s))| == WordStarts(s, true)
  {
    assert SplitOnSpace(s) == [s];
    assert [s][1..] == [];
    if s != [] {
      StartsNonSpaceRun(s, true, |s|);
    }
  }

  lemma CountCons(w: string, ws: seq<string>)
    ensures |NonEmpty([w] + ws)| == (if w != "" then 1 else 0) + |NonEmpty(ws)|
  {
    NonEmptyAppend([w], ws);
    assert [w][1..] == [];
  }

  /** The text up to its first whitespace starts at most one word, and what follows that
    * whitespace run counts on its own. */
  lemma StartsBeforeSpace(s: string, i: nat)
    requires i < |s| && i == FirstSpace(s)
    ensures WordStarts(s, true) == (if s[..i] != "" then 1 else 0) + WordStarts(SkipSpaces(s[i + 1..]), true)
  {
    StartsSkipSpaces(s[i + 1..]);
    assert s[i..][1..] == s[i + 1..];
    if i > 0 {
      StartsNonSpaceRun(s, true, i);
    } else {
      assert s == s[i..];
    }
  }

  /** Word counts add up across a whitespace boundary. */
  lemma {:induction false} WordStartsSplit(a: string, b: string)
    requires a != [] && IsSpace(a[|a| - 1])
    ensures WordStarts(a + b, true) == WordStarts(a, true) + WordStarts(b, true)
  {
    WordStartsAppend(a, b, true);
  }

  lemma {:induction false} WordStartsAppend(a: string, b: string, afterSpace: bool)
    requires a != [] && IsSpace(a[|a| - 1])
    ensures WordStarts(a + b, afterSpace) == WordStarts(a, afterSpace) + WordStarts(b, true)
  {
    if |a| == 1 {
      assert (a + b)[1..] == b;
      assert a[1..] == [];
    } else {
      assert (a + b)[1..] == a[1..] + b;
      WordStartsAppend(a[1..], b, IsSpace(a[0]));
    }
  }

  /** `Math.max(1, Math.ceil(words / 225))`: minutes at 225 words a minute, at least one. */
  function ReadingTime(words: nat): (r: nat)
    ensures r >= 1
    ensures words > 0 ==> (r - 1) * 225 < words <= r * 225
    ensures words <= 225 ==> r == 1
  {
    if words == 0 then 1 else (words + 224) / 225
  }

  /** More words never mean less reading time. */
  lemma ReadingTimeMonotone(a: nat, b: nat)
    requires a <= b
    ensures ReadingTime(a) <= ReadingTime(b)
  {
  }

  const InitialContent := "# Hello BoltDown!\n\nStart writing..."

  class Editor {
    var content: string
    var filePath: Option<string>
    var fileName: string
    var isDirty: bool
    var mode: EditorMode
    var wordCount: nat
    var readingTime: nat

    /** The status-bar figures describe the current text. The initial state does not
      * establish this (it shows 0 words for the greeting text); every `setContent` does. */
    predicate CountsCurrent()
      reads this
    {
      wordCount == WordCount(content) && readingTime == ReadingTime(wordCount)
    }

    constructor ()
      ensures content == InitialContent && filePath == None && fileName == "Untitled.md"
      ensures !isDirty && mode == Split && wordCount == 0 && readingTime == 1
    {
      content := InitialContent;
      filePath := None;
      fileName := "Untitled.md";
      isDirty := false;
      mode := Split;
      wordCount := 0;
      readingTime := 1;
    }

    /** `setContent`: the text replaces the old one, marks the document dirty and refreshes
      * the counts. */
    method SetContent(content: string)
      modifies this
      ensures this.content == content && isDirty && CountsCurrent()
      ensures filePath == old(filePath) && fileName == old(fileName) && mode == old(mode)
    {
      this.content := content;
      isDirty := true;
      wordCount := WordCount(content);
      readingTime := ReadingTime(wordCount);
    }

    /** `setFile`: a newly opened or saved file is clean. */
    method SetFile(path: Option<string>, name: string)
      modifies this
      ensures filePath == path && fileName == name && !isDirty
      ensures content == old(content) && mode == old(mode)
      ensures wordCount == old(wordCount) && readingTime == old(readingTime)
    {
      filePath, fileName, isDirty := path, name, false;
    }

    method MarkDirty()
      modifies this
      ensures isDirty
      ensures content == old(content) && filePath == old(filePath) && fileName == old(fileName) && mode == old(mode)
      ensures wordCount == old(wordCount) && readingTime == old(readingTime)
    {
      isDirty := true;
    }

    method MarkClean()
      modifies this
      ensures !isDirty
      ensures content == old(content) && filePath == old(filePath) && fileName == old(fileName) && mode == old(mode)
      ensures wordCount == old(wordCount) && readingTime == old(readingTime)
    {
      isDirty := false;
    }

    method SetMode(mode: EditorMode)
      modifies this
      ensures this.mode == mode
      ensures content == old(content) && filePath == old(filePath) && fileName == old(fileName) && isDirty == old(isDirty)
      ensures wordCount == old(wordCount) && readingTime == old(readingTime)
    {
      this.mode := mode;
    }
  }
}
