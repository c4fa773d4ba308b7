/**
 * The find/replace panel store of `src/stores/findReplaceStore.ts`: visibility flags, the
 * two input texts (capped in length) and the three search options, of which only the
 * options are persisted.
 */
module FindReplaceStore {
  const MaxSearchLength: nat := 1000
  const MaxReplaceLength: nat := 10000

  datatype FindReplaceState = FindReplaceState(
    isOpen: bool, showReplace: bool, searchText: string, replaceText: string,
    caseSensitive: bool, useRegex: bool, wholeWord: bool)

  /** The part `partialize` hands to the persistence layer. */
  datatype Preferences = Preferences(caseSensitive: bool, useRegex: bool, wholeWord: bool)

  const Initial := FindReplaceState(false, false, "", "", false, false, false)

  /** `text.length > max ? text.slice(0, max) : text`: the text, cut to its first `max`
    * characters. */
  function Clip(text: string, max: nat): (r: string)
    ensures |r| <= max && |r| <= |text| && r == text[..|r|]
    ensures |text| <= max ==> r == text
    ensures |text| > max ==> |r| == max
  {
    if |text| > max then text[..max] else text
  }

  /** Cutting again changes nothing. */
  lemma ClipIdempotent(text: string, max: nat)
    ensures Clip(Clip(text, max), max) == Clip(text, max)
  {
  }

  function Persisted(s: FindReplaceState): Preferences {
    Preferences(s.caseSensitive, s.useRegex, s.wholeWord)
  }

  /** The actions, as functions of the state. */
  function Opened(s: FindReplaceState, showReplace: bool): FindReplaceState {
    s.(isOpen := true, showReplace := showReplace)
  }

  function Closed(s: FindReplaceState): FindReplaceState {
    s.(isOpen := false)
  }

  function WithSearchText(s: FindReplaceState, text: string): FindReplaceState {
    s.(searchText := Clip(text, MaxSearchLength))
  }

  function WithReplaceText(s: FindReplaceState, text: string): FindReplaceState {
    s.(replaceText := Clip(text, MaxReplaceLength))
  }

  /** The texts stay within their caps whatever is typed, and panel actions and text edits
    * never change what is persisted. */
  lemma TextsCappedAndNotPersisted(s: FindReplaceState, text: string, showReplace: bool)
    ensures |WithSearchText(s, text).searchText| <= MaxSearchLength
    ensures |WithReplaceText(s, text).replaceText| <= MaxReplaceLength
    ensures Persisted(WithSearchText(s, text)) == Persisted(s)
    ensures Persisted(WithReplaceText(s, text)) == Persisted(s)
    ensures Persisted(Opened(s, showReplace)) == Persisted(s)
    ensures Persisted(Closed(s)) == Persisted(s)
  {
  }

  class FindReplace {
    var isOpen: bool
    var showReplace: bool
    var searchText: string
    var replaceText: string
    var caseSensitive: bool
    var useRegex: bool
    var wholeWord: bool

    function State(): FindReplaceState
      reads this
    {
      FindReplaceState(isOpen, showReplace, searchText, replaceText, caseSensitive, useRegex, wholeWord)
    }

    /** The store starts closed, empty, with every option off; `persisted` are the options
      * read back from storage, when there are any. */
    constructor (persisted: Preferences)
      ensures State() == Initial.(caseSensitive := persisted.caseSensitive,
                                  useRegex := persisted.useRegex, wholeWord := persisted.wholeWord)
    {
      isOpen, showReplace, searchText, replaceText := false, false, "", "";
      caseSensitive, useRegex, wholeWord := persisted.caseSensitive, persisted.useRegex, persisted.wholeWord;
    }

    /** `open(showReplace = false)`. */
    method Open(showReplace: bool)
      modifies this
      ensures State() == Opened(old(State()), showReplace)
    {
      this.isOpen, this.showReplace := true, showReplace;
    }

    method Close()
      modifies this
      ensures State() == Closed(old(State()))
    {
      isOpen := false;
    }

    method ToggleReplace()
      modifies this
      ensures State() == old(State()).(showReplace := !old(showReplace))
    {
      showReplace := !showReplace;
    }

    method SetSearchText(text: string)
      modifies this
      ensures State() == WithSearchText(old(State()), text)
    {
      searchText := if |text| > MaxSearchLength then text[..MaxSearchLength] else text;
    }

    method SetReplaceText(text: string)
      modifies this
      ensures State() == WithReplaceText(old(State()), text)
    {
      replaceText := if |text| > MaxReplaceLength then text[..MaxReplaceLength] else text;
    }

    method ToggleCaseSensitive()
      modifies this
      ensures State() == old(State()).(caseSensitive := !old(caseSensitive))
    {
      caseSensitive := !caseSensitive;
    }

    method ToggleRegex()
      modifies this
      ensures State() == old(State()).(useRegex := !old(useRegex))
    {
      useRegex := !useRegex;
    }

    method ToggleWholeWord()
      modifies this
      ensures State() == old(State()).(wholeWord := !old(wholeWord))
    {
      wholeWord := !wholeWord;
    }

    /** `partialize`: only the three options are persisted. */
    method Partialize() returns (p: Preferences)
      ensures p == Persisted(State())
      ensures p.caseSensitive == caseSensitive && p.useRegex == useRegex && p.wholeWord == wholeWord
    {
      p := Preferences(caseSensitive, useRegex, wholeWord);
    }
  }
}
