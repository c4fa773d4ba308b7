/**
 * The tab store of `src/stores/tabStore.ts`: the list of open tabs and the id of the active
 * one, replaced by each action. Tab ids come from `crypto.randomUUID()`; here the caller
 * passes the id a new tab receives (`freshId`).
 */
module TabStore {
  import opened Wrappers

  datatype Tab = Tab(id: string, filePath: Option<string>, fileName: string, content: string, savedContent: string)

  datatype TabState = TabState(tabs: seq<Tab>, activeTabId: string)

  /** A tab has unsaved edits when its content differs from what was last saved. */
  predicate IsDirty(t: Tab) {
    t.content != t.savedContent
  }

  /** `createTab`: a new tab starts clean. */
  function CreateTab(freshId: string, filePath: Option<string>, fileName: string, content: string): (t: Tab)
    ensures !IsDirty(t)
    ensures t.id == freshId && t.filePath == filePath && t.fileName == fileName && t.content == content
  {
    Tab(freshId, filePath, fileName, content, content)
  }

  const InitialContent := "# Hello BoltDown!\n\nStart writing..."

  function Ids(tabs: seq<Tab>): (r: seq<string>)
    ensures |r| == |tabs|
    ensures forall i :: 0 <= i < |tabs| ==> r[i] == tabs[i].id
  {
    if tabs == [] then [] else [tabs[0].id] + Ids(tabs[1..])
  }

  predicate DistinctIds(tabs: seq<Tab>) {
    forall i, j :: 0 <= i < j < |tabs| ==> tabs[i].id != tabs[j].id
  }

  /** The state the store keeps as long as ids are fresh and only existing ids are activated:
    * at least one tab, distinct ids, and the active id is one of them. */
  predicate Coherent(s: TabState) {
    |s.tabs| >= 1 && DistinctIds(s.tabs) && s.activeTabId in Ids(s.tabs)
  }

  /** `tabs.find(t => t.filePath === filePath)`. */
  function FindByPath(tabs: seq<Tab>, path: string): (r: Option<Tab>)
    ensures r.Some? ==> r.value in tabs && r.value.filePath == Some(path)
    ensures r.None? ==> forall i :: 0 <= i < |tabs| ==> tabs[i].filePath != Some(path)
  {
    if tabs == [] then None
    else if tabs[0].filePath == Some(path) then Some(tabs[0])
    else FindByPath(tabs[1..], path)
  }

  /** `tabs.findIndex(t => t.id === id)`: the first index, or -1. */
  function IndexOfId(tabs: seq<Tab>, id: string): (r: int)
    ensures -1 <= r < |tabs|
    ensures r == -1 <==> id !in Ids(tabs)
    ensures r >= 0 ==> tabs[r].id == id && forall i :: 0 <= i < r ==> tabs[i].id != id
  {
    if tabs == [] then -1
    else if tabs[0].id == id then 0
    else
      var k := IndexOfId(tabs[1..], id);
      assert Ids(tabs) == [tabs[0].id] + Ids(tabs[1..]);
      if k == -1 then -1 else k + 1
  }

  /** `tabs.filter(t => t.id !== id)`. */
  function WithoutId(tabs: seq<Tab>, id: string): (r: seq<Tab>)
    ensures |r| <= |tabs|
    ensures forall t :: t in r <==> t in tabs && t.id != id
  {
    if tabs == [] then []
    else if tabs[0].id == id then WithoutId(tabs[1..], id)
    else [tabs[0]] + WithoutId(tabs[1..], id)
  }

  /** `tabs.filter(t => t.id === id)`. */
  function OnlyId(tabs: seq<Tab>, id: string): (r: seq<Tab>)
    ensures forall t :: t in r <==> t in tabs && t.id == id
  {
    if tabs == [] then []
    else if tabs[0].id == id then [tabs[0]] + OnlyId(tabs[1..], id)
    else OnlyId(tabs[1..], id)
  }

  /** `openTab`: a non-empty path that is already open only activates its tab; anything
    * else appends a new tab and activates it. The second component is the returned id. */
  function OpenTabSpec(s: TabState, filePath: Option<string>, fileName: string, content: string, freshId: string): (TabState, string) {
    if filePath.Some? && filePath.value != "" && FindByPath(s.tabs, filePath.value).Some? then
      var existing := FindByPath(s.tabs, filePath.value).value;
      (s.(activeTabId := existing.id), existing.id)
    else
      var tab := CreateTab(freshId, filePath, fileName, content);
      (TabState(s.tabs + [tab], tab.id), tab.id)
  }

  /** `closeTab`. Closing the only tab replaces it with an empty "Untitled.md" tab. Closing the
    * active tab activates `remaining[min(idx, remaining.length - 1)]`; when that index is
    * negative `closeTab` in tabStore.ts dereferences `undefined` and throws, given here as `None`. */
  function CloseTabSpec(s: TabState, id: string, freshId: string): Option<TabState> {
    if |s.tabs| == 1 then
      var blank := CreateTab(freshId, None, "Untitled.md", "");
      Some(TabState([blank], blank.id))
    else
      var idx := IndexOfId(s.tabs, id);
      var remaining := WithoutId(s.tabs, id);
      if s.activeTabId == id then
        var newIdx := if idx < |remaining| - 1 then idx else |remaining| - 1;
        if newIdx < 0 then None
        else Some(TabState(remaining, remaining[newIdx].id))
      else Some(s.(tabs := remaining))
  }

  /** `closeOtherTabs`. */
  function CloseOtherTabsSpec(s: TabState, id: string): TabState {
    TabState(OnlyId(s.tabs, id), id)
  }

  /** `updateContent` and `markClean`: the same map over the tabs, touching one field of the
    * tabs with the given id. */
  function SetContent(tabs: seq<Tab>, id: string, content: string): (r: seq<Tab>)
    ensures |r| == |tabs|
    ensures forall i :: 0 <= i < |tabs| ==> r[i] == if tabs[i].id == id then tabs[i].(content := content) else tabs[i]
  {
    if tabs == [] then []
    else [if tabs[0].id == id then tabs[0].(content := content) else tabs[0]] + SetContent(tabs[1..], id, content)
  }

  function SetSaved(tabs: seq<Tab>, id: string, content: string): (r: seq<Tab>)
    ensures |r| == |tabs|
    ensures forall i :: 0 <= i < |tabs| ==> r[i] == if tabs[i].id == id then tabs[i].(savedContent := content) else tabs[i]
  {
    if tabs == [] then []
    else [if tabs[0].id == id then tabs[0].(savedContent := content) else tabs[0]] + SetSaved(tabs[1..], id, content)
  }

  /** With distinct ids, removing the tab at `idx` leaves the tabs before and after it. */
  lemma {:induction false} WithoutDistinct(tabs: seq<Tab>, idx: nat)
    requires DistinctIds(tabs) && idx < |tabs|
    ensures WithoutId(tabs, tabs[idx].id) == tabs[..idx] + tabs[idx + 1..]
  {
    if idx == 0 {
      WithoutAbsent(tabs[1..], tabs[0].id);
    } else {
      var t := tabs[1..];
      var id := tabs[idx].id;
      assert tabs[0].id != id;
      assert DistinctIds(t);
      WithoutDistinct(t, idx - 1);
      assert t[idx - 1] == tabs[idx];
      assert WithoutId(tabs, id) == [tabs[0]] + WithoutId(t, id);
      ConsSlices(tabs, idx);
    }
  }

  lemma ConsSlices<T>(s: seq<T>, i: nat)
    requires 0 < i < |s|
    ensures [s[0]] + (s[1..][..i - 1] + s[1..][i..]) == s[..i] + s[i + 1..]
  {
    assert s[..i] == [s[0]] + s[1..][..i - 1];
    assert s[i + 1..] == s[1..][i..];
  }

  /** The tab after the one removed at `idx` sits at `idx`; when the last one is removed,
    * the tab before it is last. */
  lemma RemovedNeighbour<T>(s: seq<T>, idx: nat)
    requires idx < |s| && |s| >= 2
    ensures var r := s[..idx] + s[idx + 1..];
      |r| == |s| - 1
      && (idx < |s| - 1 ==> r[idx] == s[idx + 1])
      && (idx == |s| - 1 ==> r[|r| - 1] == s[idx - 1])
  {
  }

  lemma {:induction false} WithoutAbsent(tabs: seq<Tab>, id: string)
    requires forall i :: 0 <= i < |tabs| ==> tabs[i].id != id
    ensures WithoutId(tabs, id) == tabs
  {
    if tabs != [] {
      WithoutAbsent(tabs[1..], id);
    }
  }

  lemma DistinctSlices(tabs: seq<Tab>, idx: nat)
    requires DistinctIds(tabs) && idx < |tabs|
    ensures DistinctIds(tabs[..idx] + tabs[idx + 1..])
  {
    var r := tabs[..idx] + tabs[idx + 1..];
    forall i, j | 0 <= i < j < |r| ensures r[i].id != r[j].id {
      var i' := if i < idx then i else i + 1;
      var j' := if j < idx then j else j + 1;
      assert r[i] == tabs[i'] && r[j] == tabs[j'];
    }
  }

  /** Re-opening an open file only activates its tab and returns its id. */
  lemma OpenExisting(s: TabState, path: string, fileName: string, content: string, freshId: string)
    requires path != "" && FindByPath(s.tabs, path).Some?
    ensures var (r, id) := OpenTabSpec(s, Some(path), fileName, content, freshId);
      r.tabs == s.tabs && id == r.activeTabId && id in Ids(s.tabs)
      && exists i :: 0 <= i < |s.tabs| && s.tabs[i].id == id && s.tabs[i].filePath == Some(path)
  {
    var t := FindByPath(s.tabs, path).value;
    var i :| 0 <= i < |s.tabs| && s.tabs[i] == t;
    assert Ids(s.tabs)[i] == t.id;
  }

  /** Otherwise `openTab` appends exactly one clean tab with the given fields and the fresh
    * id, at the end, and activates it. */
  lemma OpenNew(s: TabState, filePath: Option<string>, fileName: string, content: string, freshId: string)
    requires !(filePath.Some? && filePath.value != "" && FindByPath(s.tabs, filePath.value).Some?)
    ensures var (r, id) := OpenTabSpec(s, filePath, fileName, content, freshId);
      id == freshId && r.activeTabId == freshId && |r.tabs| == |s.tabs| + 1
      && r.tabs[..|s.tabs|] == s.tabs && !IsDirty(r.tabs[|s.tabs|])
      && r.tabs[|s.tabs|].filePath == filePath && r.tabs[|s.tabs|].content == content
  {
  }

  /** `openTab` keeps the store coherent when the new id is fresh. */
  lemma OpenKeepsCoherent(s: TabState, filePath: Option<string>, fileName: string, content: string, freshId: string)
    requires Coherent(s) && freshId !in Ids(s.tabs)
    ensures Coherent(OpenTabSpec(s, filePath, fileName, content, freshId).0)
  {
    var r := OpenTabSpec(s, filePath, fileName, content, freshId).0;
    if filePath.Some? && filePath.value != "" && FindByPath(s.tabs, filePath.value).Some? {
      var t := FindByPath(s.tabs, filePath.value).value;
      var i :| 0 <= i < |s.tabs| && s.tabs[i] == t;
      assert Ids(s.tabs)[i] == t.id;
    } else {
      forall i, j | 0 <= i < j < |r.tabs| ensures r.tabs[i].id != r.tabs[j].id {
        if j == |s.tabs| {
          assert Ids(s.tabs)[i] == s.tabs[i].id;
        }
      }
      assert Ids(r.tabs)[|s.tabs|] == freshId;
    }
  }

  /** From a coherent store, `closeTab` never throws and never leaves the list empty, and
    * the store stays coherent. */
  lemma CloseKeepsCoherent(s: TabState, id: string, freshId: string)
    requires Coherent(s)
    ensures CloseTabSpec(s, id, freshId).Some?
    ensures Coherent(CloseTabSpec(s, id, freshId).value)
  {
    if |s.tabs| != 1 {
      if s.activeTabId == id {
        CloseActiveCoherent(s, id, freshId);
      } else {
        CloseInactiveCoherent(s, id, freshId);
      }
    }
  }

  lemma CloseActiveCoherent(s: TabState, id: string, freshId: string)
    requires Coherent(s) && |s.tabs| >= 2 && s.activeTabId == id
    ensures CloseTabSpec(s, id, freshId).Some? && Coherent(CloseTabSpec(s, id, freshId).value)
  {
    var idx := IndexOfId(s.tabs, id);
    CloseActiveActivatesNeighbour(s, id, freshId);
    DistinctSlices(s.tabs, idx);
    var remaining := s.tabs[..idx] + s.tabs[idx + 1..];
    var k := if idx < |s.tabs| - 1 then idx else idx - 1;
    assert remaining[k] == if idx < |s.tabs| - 1 then s.tabs[idx + 1] else s.tabs[idx - 1];
    assert Ids(remaining)[k] == remaining[k].id;
  }

  lemma CloseInactiveCoherent(s: TabState, id: string, freshId: string)
    requires Coherent(s) && |s.tabs| >= 2 && s.activeTabId != id
    ensures CloseTabSpec(s, id, freshId).Some? && Coherent(CloseTabSpec(s, id, freshId).value)
  {
    var idx := IndexOfId(s.tabs, id);
    CloseInactiveKeepsActive(s, id, freshId);
    if idx >= 0 {
      DistinctSlices(s.tabs, idx);
      var a :| 0 <= a < |s.tabs| && Ids(s.tabs)[a] == s.activeTabId;
      OthersSurvive(s.tabs, idx, a);
    }
  }

  lemma OthersSurvive(tabs: seq<Tab>, idx: nat, a: nat)
    requires idx < |tabs| && a < |tabs| && a != idx
    ensures tabs[a].id in Ids(tabs[..idx] + tabs[idx + 1..])
  {
    var remaining := tabs[..idx] + tabs[idx + 1..];
    var b := if a < idx then a else a - 1;
    assert remaining[b] == tabs[a];
    assert Ids(remaining)[b] == tabs[a].id;
  }

  /** Closing the active tab (of several) activates its right-hand neighbour, or its
    * left-hand one when it was the last tab. */
  lemma CloseActiveActivatesNeighbour(s: TabState, id: string, freshId: string)
    requires Coherent(s) && |s.tabs| >= 2 && s.activeTabId == id
    ensures var idx := IndexOfId(s.tabs, id);
      0 <= idx
      && CloseTabSpec(s, id, freshId) == Some(TabState(s.tabs[..idx] + s.tabs[idx + 1..],
           if idx < |s.tabs| - 1 then s.tabs[idx + 1].id else s.tabs[idx - 1].id))
  {
    var idx := IndexOfId(s.tabs, id);
    WithoutDistinct(s.tabs, idx);
    var r := WithoutId(s.tabs, id);
    assert r == s.tabs[..idx] + s.tabs[idx + 1..];
    RemovedNeighbour(s.tabs, idx);
    CloseActiveSpec(s, id, freshId);
    var newIdx := if idx < |r| - 1 then idx else |r| - 1;
    assert r[newIdx].id == if idx < |s.tabs| - 1 then s.tabs[idx + 1].id else s.tabs[idx - 1].id;
  }

  /** `closeTab` of the active tab, with more than one tab: the remaining tabs, with the one
    * now at the closed index active, or the last one. */
  lemma CloseActiveSpec(s: TabState, id: string, freshId: string)
    requires |s.tabs| >= 2 && s.activeTabId == id && |WithoutId(s.tabs, id)| >= 1
    ensures var idx := IndexOfId(s.tabs, id);
      var r := WithoutId(s.tabs, id);
      var newIdx := if idx < |r| - 1 then idx else |r| - 1;
      0 <= newIdx ==> CloseTabSpec(s, id, freshId) == Some(TabState(r, r[newIdx].id))
  {
  }

  /** Closing a tab that is not active keeps the active id and removes exactly that tab. */
  lemma CloseInactiveKeepsActive(s: TabState, id: string, freshId: string)
    requires DistinctIds(s.tabs) && |s.tabs| >= 2 && s.activeTabId != id
    ensures CloseTabSpec(s, id, freshId).Some?
    ensures CloseTabSpec(s, id, freshId).value.activeTabId == s.activeTabId
    ensures var idx := IndexOfId(s.tabs, id);
      CloseTabSpec(s, id, freshId).value.tabs == if idx < 0 then s.tabs else s.tabs[..idx] + s.tabs[idx + 1..]
  {
    var idx := IndexOfId(s.tabs, id);
    if idx >= 0 {
      WithoutDistinct(s.tabs, idx);
    } else {
      WithoutAbsent(s.tabs, id);
    }
  }

  /** `closeOtherTabs(id)` on a coherent store with that tab leaves exactly that tab, active. */
  lemma {:induction false} CloseOthersLeavesOne(s: TabState, i: nat)
    requires Coherent(s) && i < |s.tabs|
    ensures CloseOtherTabsSpec(s, s.tabs[i].id) == TabState([s.tabs[i]], s.tabs[i].id)
  {
    OnlyDistinct(s.tabs, i);
  }

  lemma {:induction false} OnlyDistinct(tabs: seq<Tab>, i: nat)
    requires DistinctIds(tabs) && i < |tabs|
    ensures OnlyId(tabs, tabs[i].id) == [tabs[i]]
  {
    if i == 0 {
      OnlyAbsent(tabs[1..], tabs[0].id);
    } else {
      assert DistinctIds(tabs[1..]);
      assert tabs[1..][i - 1] == tabs[i];
      OnlyDistinct(tabs[1..], i - 1);
    }
  }

  lemma {:induction false} OnlyAbsent(tabs: seq<Tab>, id: string)
    requires forall i :: 0 <= i < |tabs| ==> tabs[i].id != id
    ensures OnlyId(tabs, id) == []
  {
    if tabs != [] {
      OnlyAbsent(tabs[1..], id);
    }
  }

  /** Saving what was just typed makes that tab clean and leaves every other tab as it was. */
  lemma UpdateThenMarkClean(tabs: seq<Tab>, id: string, content: string)
    ensures var r := SetSaved(SetContent(tabs, id, content), id, content);
      |r| == |tabs|
      && forall i :: 0 <= i < |tabs| ==>
           if tabs[i].id == id then !IsDirty(r[i]) && r[i].content == content
           else r[i] == tabs[i]
  {
  }

  /** `updateContent` and `markClean` keep ids, hence coherence. */
  lemma EditsKeepCoherent(s: TabState, id: string, content: string)
    requires Coherent(s)
    ensures Coherent(s.(tabs := SetContent(s.tabs, id, content)))
    ensures Coherent(s.(tabs := SetSaved(s.tabs, id, content)))
  {
    var a := SetContent(s.tabs, id, content);
    var b := SetSaved(s.tabs, id, content);
    assert Ids(a) == Ids(s.tabs);
    assert Ids(b) == Ids(s.tabs);
  }

  class TabStore {
    var tabs: seq<Tab>
    var activeTabId: string

    function State(): TabState
      reads this
    {
      TabState(tabs, activeTabId)
    }

    /** The store starts with one tab holding the welcome text. */
    constructor (initialId: string)
      ensures State() == TabState([CreateTab(initialId, None, "Untitled.md", InitialContent)], initialId)
      ensures Coherent(State())
    {
      tabs := [CreateTab(initialId, None, "Untitled.md", InitialContent)];
      activeTabId := initialId;
    }

    method OpenTab(filePath: Option<string>, fileName: string, content: string, freshId: string) returns (id: string)
      modifies this
      ensures (State(), id) == OpenTabSpec(old(State()), filePath, fileName, content, freshId)
    {
      if filePath.Some? && filePath.value != "" {
        var existing := FindByPath(tabs, filePath.value);
        if existing.Some? {
          activeTabId := existing.value.id;
          return existing.value.id;
        }
      }
      var tab := CreateTab(freshId, filePath, fileName, content);
      tabs := tabs + [tab];
      activeTabId := tab.id;
      id := tab.id;
    }

    /** `closeTab`; `ok` is false where tabStore.ts throws, and then nothing changes. */
    method CloseTab(id: string, freshId: string) returns (ok: bool)
      modifies this
      ensures var r := CloseTabSpec(old(State()), id, freshId);
        ok == r.Some? && State() == if ok then r.value else old(State())
    {
      if |tabs| == 1 {
        var blank := CreateTab(freshId, None, "Untitled.md", "");
        tabs, activeTabId := [blank], blank.id;
        return true;
      }
      var idx := IndexOfId(tabs, id);
      var remaining := WithoutId(tabs, id);
      if activeTabId == id {
        var newIdx := if idx < |remaining| - 1 then idx else |remaining| - 1;
        if newIdx < 0 {
          return false;
        }
        tabs, activeTabId := remaining, remaining[newIdx].id;
      } else {
        tabs := remaining;
      }
      ok := true;
    }

    method CloseOtherTabs(id: string)
      modifies this
      ensures State() == CloseOtherTabsSpec(old(State()), id)
    {
      tabs, activeTabId := OnlyId(tabs, id), id;
    }

    method SetActiveTab(id: string)
      modifies this
      ensures tabs == old(tabs) && activeTabId == id
    {
      activeTabId := id;
    }

    method UpdateContent(id: string, content: string)
      modifies this
      ensures tabs == SetContent(old(tabs), id, content) && activeTabId == old(activeTabId)
    {
      tabs := SetContent(tabs, id, content);
    }

    method MarkClean(id: string, content: string)
      modifies this
      ensures tabs == SetSaved(old(tabs), id, content) && activeTabId == old(activeTabId)
    {
      tabs := SetSaved(tabs, id, content);
    }
  }
}
