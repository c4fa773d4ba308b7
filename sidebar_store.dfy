/**
 * The sidebar store of `src/stores/sidebarStore.ts`: open flag, width, active panel, the
 * root folder and its file tree, and the recent-files list. `localStorage` reads are inputs
 * (the stored text, or none) and writes are left out; `Date.now()` and the directory
 * listing are parameters.
 */
module SidebarStore {
  import opened Wrappers
  import opened Strings
  import opened DirectoryLoader

  const MaxRecent: nat := 20
  const DefaultWidth: int := 240

  datatype SidebarTab = Files | Recent | Outline

  datatype RecentFile = RecentFile(path: string, name: string, openedAt: int)

  // ---------------------------------------------------------------------------------
  // loadWidth

  /** The longest prefix of decimal digits. */
  function DigitRun(s: string): (r: string)
    ensures |r| <= |s| && r == s[..|r|]
    ensures forall i :: 0 <= i < |r| ==> IsDigit(r[i])
    ensures |r| < |s| ==> !IsDigit(s[|r|])
  {
    if s == [] || !IsDigit(s[0]) then [] else [s[0]] + DigitRun(s[1..])
  }

  /** `parseInt(raw, 10)`: leading white space, an optional sign, then the longest run of
    * decimal digits; `None` for `NaN` (no digit there). */
  function ParseInt(raw: string): Option<int> {
    ParseSigned(TrimStart(raw))
  }

  /** `parseInt` after the leading white space. */
  function ParseSigned(t: string): Option<int> {
    var rest := if t != [] && (t[0] == '-' || t[0] == '+') then t[1..] else t;
    var d := DigitRun(rest);
    if d == [] then None
    else
      var v: int := DigitsValue(d);
      Some(if t[0] == '-' then -v else v)
  }

  /** `parseInt` finds a number only where the text holds a digit. */
  lemma ParseNeedsDigit(raw: string)
    ensures ParseInt(raw).Some? ==> exists i :: 0 <= i < |raw| && IsDigit(raw[i])
  {
    var t := TrimStart(raw);
    TrimStartSuffix(raw);
    var rest := if t != [] && (t[0] == '-' || t[0] == '+') then t[1..] else t;
    if DigitRun(rest) != [] {
      assert IsDigit(rest[0]);
      assert rest[0] in raw;
    }
  }

  /** `loadWidth`: the stored width, or 240 when nothing (or the empty text) is stored or
    * the text holds no number. */
  function LoadWidth(raw: Option<string>): (w: int)
    ensures raw.None? ==> w == DefaultWidth
    ensures raw.Some? && (forall i :: 0 <= i < |raw.value| ==> !IsDigit(raw.value[i])) ==> w == DefaultWidth
  {
    if raw.None? || raw.value == "" then DefaultWidth
    else
      ParseNeedsDigit(raw.value);
      match ParseInt(raw.value)
      case None => DefaultWidth
      case Some(n) => n
  }

  /** A width saved as `String(width)` loads back as that width. */
  lemma LoadSavedWidth(width: nat)
    ensures LoadWidth(Some(NatToString(width))) == width
  {
    LoadDigits(NatToString(width));
    NatToStringValue(width);
  }

  /** A stored run of digits loads as its decimal value. */
  lemma LoadDigits(s: string)
    requires s != [] && forall i :: 0 <= i < |s| ==> IsDigit(s[i])
    ensures LoadWidth(Some(s)) == DigitsValue(s) as int
  {
    assert TrimStart(s) == s by {
      assert IsDigit(s[0]);
    }
    ParseDigits(s);
  }

  /** A non-empty run of digits parses as its decimal value. */
  lemma ParseDigits(s: string)
    requires s != [] && forall i :: 0 <= i < |s| ==> IsDigit(s[i])
    ensures ParseSigned(s) == Some(DigitsValue(s) as int)
  {
    assert IsDigit(s[0]);
    assert s[0] != '-' && s[0] != '+';
    AllDigitsRun(s);
    assert DigitRun(s) == s;
  }

  lemma {:induction false} AllDigitsRun(s: string)
    requires forall i :: 0 <= i < |s| ==> IsDigit(s[i])
    ensures DigitRun(s) == s
  {
    if s != [] {
      AllDigitsRun(s[1..]);
    }
  }

  // ---------------------------------------------------------------------------------
  // updateChildren

  /** One node of `updateChildren`: a node with the given id gets the new child list; any
    * other node that has a child list (even an empty one) is searched recursively. */
  function UpdateNode(n: FileTreeNode, parentId: string, children: seq<FileTreeNode>): (r: FileTreeNode)
    ensures r.id == n.id && r.name == n.name && r.path == n.path && r.isDir == n.isDir
    ensures r.children.List? <==> n.children.List? || n.id == parentId
    decreases n
  {
    if n.id == parentId then n.(children := List(children))
    else
      match n.children
      case Undefined => n
      case List(cs) =>
        n.(children := List(seq(|cs|, i requires 0 <= i < |cs| => assert cs[i] in cs; UpdateNode(cs[i], parentId, children))))
  }

  /** `updateChildren`: the update applied to each top-level node. */
  function UpdateChildren(nodes: seq<FileTreeNode>, parentId: string, children: seq<FileTreeNode>): (r: seq<FileTreeNode>)
    ensures |r| == |nodes|
    ensures forall i :: 0 <= i < |nodes| ==> r[i] == UpdateNode(nodes[i], parentId, children)
  {
    seq(|nodes|, i requires 0 <= i < |nodes| => UpdateNode(nodes[i], parentId, children))
  }

  /** The node reached by following child indices `p` from the top level. */
  function NodeAt(nodes: seq<FileTreeNode>, p: seq<nat>): Option<FileTreeNode>
    decreases |p|
  {
    if p == [] || p[0] >= |nodes| then None
    else if |p| == 1 then Some(nodes[p[0]])
    else
      match nodes[p[0]].children
      case Undefined => None
      case List(cs) => NodeAt(cs, p[1..])
  }

  /** No node strictly above the end of path `p` has id `id`. */
  predicate AncestorsAvoid(nodes: seq<FileTreeNode>, p: seq<nat>, id: string)
    decreases |p|
  {
    if |p| <= 1 || p[0] >= |nodes| then true
    else
      nodes[p[0]].id != id && nodes[p[0]].children.List?
      && AncestorsAvoid(nodes[p[0]].children.nodes, p[1..], id)
  }

  /** Whether the node or any node below it has id `id`. */
  predicate HasId(n: FileTreeNode, id: string)
    decreases n
  {
    n.id == id ||
    (n.children.List? && exists c :: c in n.children.nodes && HasId(c, id))
  }

  /** At any depth, a node not below an earlier match keeps its id, name, path and kind, and
    * if its own id matches it now has exactly the new children. */
  lemma {:induction false} UpdateChildrenReaches(nodes: seq<FileTreeNode>, parentId: string, children: seq<FileTreeNode>, p: seq<nat>)
    requires NodeAt(nodes, p).Some? && AncestorsAvoid(nodes, p, parentId)
    ensures var r := UpdateChildren(nodes, parentId, children);
      var n := NodeAt(nodes, p).value;
      NodeAt(r, p).Some?
      && NodeAt(r, p).value.id == n.id && NodeAt(r, p).value.name == n.name
      && NodeAt(r, p).value.path == n.path && NodeAt(r, p).value.isDir == n.isDir
      && (n.id == parentId ==> NodeAt(r, p).value.children == List(children))
    decreases |p|
  {
    if |p| > 1 {
      var cs := nodes[p[0]].children.nodes;
      assert UpdateChildren(nodes, parentId, children)[p[0]].children == List(UpdateChildren(cs, parentId, children));
      UpdateChildrenReaches(cs, parentId, children, p[1..]);
    }
  }

  /** Without a matching id anywhere below it, a node comes back unchanged. */
  lemma {:induction false} UpdateNodeNoMatch(n: FileTreeNode, parentId: string, children: seq<FileTreeNode>)
    requires !HasId(n, parentId)
    ensures UpdateNode(n, parentId, children) == n
    decreases n
  {
    if n.children.List? {
      var cs := n.children.nodes;
      forall i | 0 <= i < |cs| ensures UpdateNode(cs[i], parentId, children) == cs[i] {
        assert cs[i] in cs;
        UpdateNodeNoMatch(cs[i], parentId, children);
      }
      assert seq(|cs|, i requires 0 <= i < |cs| => UpdateNode(cs[i], parentId, children)) == cs;
    }
  }

  /** Without a matching id anywhere, the tree comes back unchanged. */
  lemma UpdateChildrenNoMatch(nodes: seq<FileTreeNode>, parentId: string, children: seq<FileTreeNode>)
    requires forall i :: 0 <= i < |nodes| ==> !HasId(nodes[i], parentId)
    ensures UpdateChildren(nodes, parentId, children) == nodes
  {
    forall i | 0 <= i < |nodes| ensures UpdateChildren(nodes, parentId, children)[i] == nodes[i] {
      UpdateNodeNoMatch(nodes[i], parentId, children);
    }
  }

  /** Applying the same update twice is the same as applying it once. */
  lemma {:induction false} UpdateNodeIdempotent(n: FileTreeNode, parentId: string, children: seq<FileTreeNode>)
    ensures UpdateNode(UpdateNode(n, parentId, children), parentId, children) == UpdateNode(n, parentId, children)
    decreases n
  {
    if n.id != parentId && n.children.List? {
      var cs := n.children.nodes;
      var cs' := UpdateNode(n, parentId, children).children.nodes;
      forall i | 0 <= i < |cs| ensures UpdateNode(cs'[i], parentId, children) == cs'[i] {
        assert cs[i] in cs;
        UpdateNodeIdempotent(cs[i], parentId, children);
      }
      assert seq(|cs'|, i requires 0 <= i < |cs'| => UpdateNode(cs'[i], parentId, children)) == cs';
    }
  }

  lemma UpdateChildrenIdempotent(nodes: seq<FileTreeNode>, parentId: string, children: seq<FileTreeNode>)
    ensures UpdateChildren(UpdateChildren(nodes, parentId, children), parentId, children) == UpdateChildren(nodes, parentId, children)
  {
    forall i | 0 <= i < |nodes| {
      UpdateNodeIdempotent(nodes[i], parentId, children);
    }
  }

  // ---------------------------------------------------------------------------------
  // addRecentFile

  /** `recentFiles.filter(f => f.path !== path)`. */
  function WithoutPath(files: seq<RecentFile>, path: string): (r: seq<RecentFile>)
    ensures |r| <= |files|
    ensures forall f :: f in r <==> f in files && f.path != path
  {
    if files == [] then []
    else if files[0].path == path then WithoutPath(files[1..], path)
    else [files[0]] + WithoutPath(files[1..], path)
  }

  /** `addRecentFile`: the file first, any older entry for its path dropped, at most 20. */
  function AddRecent(files: seq<RecentFile>, path: string, name: string, now: int): (r: seq<RecentFile>)
    ensures 1 <= |r| <= MaxRecent
    ensures r[0] == RecentFile(path, name, now)
    ensures forall i :: 1 <= i < |r| ==> r[i].path != path && r[i] in files
  {
    var updated := [RecentFile(path, name, now)] + WithoutPath(files, path);
    var r := if |updated| > MaxRecent then updated[..MaxRecent] else updated;
    assert forall i :: 1 <= i < |r| ==> r[i] == WithoutPath(files, path)[i - 1];
    r
  }

  predicate DistinctPaths(files: seq<RecentFile>) {
    forall i, j :: 0 <= i < j < |files| ==> files[i].path != files[j].path
  }

  lemma TailPathsDiffer(files: seq<RecentFile>)
    requires DistinctPaths(files) && files != []
    ensures forall f :: f in files[1..] ==> f.path != files[0].path
  {
    forall f | f in files[1..] ensures f.path != files[0].path {
      var m :| 0 <= m < |files[1..]| && files[1..][m] == f;
      assert files[m + 1] == f;
    }
  }

  lemma {:induction false} WithoutPathDistinct(files: seq<RecentFile>, path: string)
    requires DistinctPaths(files)
    ensures DistinctPaths(WithoutPath(files, path))
  {
    if files != [] {
      assert DistinctPaths(files[1..]);
      WithoutPathDistinct(files[1..], path);
      if files[0].path != path {
        TailPathsDiffer(files);
        var t := WithoutPath(files[1..], path);
        var r := [files[0]] + t;
        forall i, j | 0 <= i < j < |r| ensures r[i].path != r[j].path {
          if i == 0 {
            assert r[j] == t[j - 1];
            assert t[j - 1] in files[1..];
          } else {
            assert r[i] == t[i - 1] && r[j] == t[j - 1];
          }
        }
      }
    }
  }

  /** Recent paths that were distinct stay distinct. */
  lemma AddRecentDistinct(files: seq<RecentFile>, path: string, name: string, now: int)
    requires DistinctPaths(files)
    ensures DistinctPaths(AddRecent(files, path, name, now))
  {
    WithoutPathDistinct(files, path);
    var w := WithoutPath(files, path);
    var r := AddRecent(files, path, name, now);
    forall i, j | 0 <= i < j < |r| ensures r[i].path != r[j].path {
      if i > 0 {
        assert r[i] == w[i - 1] && r[j] == w[j - 1];
      }
    }
  }

  /** The entries after the first keep their earlier relative order. */
  lemma AddRecentKeepsOrder(files: seq<RecentFile>, path: string, name: string, now: int)
    ensures var r := AddRecent(files, path, name, now);
      r[1..] == WithoutPath(files, path)[..|r| - 1]
  {
  }

  // ---------------------------------------------------------------------------------
  // loadParentDirectory

  /** The directory part of a path, as `loadParentDirectory` means to take it: the text
    * before the last '/', or "" when there is no '/'. */
  function ParentDir(filePath: string): (dir: string)
    ensures dir == "" || (|dir| < |filePath| && filePath[|dir|] == '/' && dir == filePath[..|dir|])
    ensures dir != "" ==> '/' !in filePath[|dir| + 1..]
  {
    var k := LastIndexOf(filePath, '/');
    if k <= 0 then "" else filePath[..k]
  }

  /** The folder `loadParentDirectory` in sidebarStore.ts takes, `filePath.slice(0,
    * filePath.lastIndexOf('/'))`: with no '/', `lastIndexOf` gives -1 and the slice drops
    * only the last character. */
  function ParentDirAsWritten(filePath: string): string {
    var k := LastIndexOf(filePath, '/');
    if k >= 0 then filePath[..k]
    else if |filePath| >= 1 then filePath[..|filePath| - 1]
    else ""
  }

  /** The two agree whenever the path holds a '/'. */
  lemma ParentDirAgrees(filePath: string)
    requires '/' in filePath
    ensures ParentDirAsWritten(filePath) == ParentDir(filePath)
  {
  }

  /** A bare file name makes `loadParentDirectory` take a truncated name for the folder. */
  lemma ParentDirAsWrittenTruncates()
    ensures ParentDirAsWritten("notes.md") == "notes.m"
    ensures ParentDir("notes.md") == ""
  {
    assert LastIndexOf("notes.md", '/') == -1;
  }

  datatype SidebarState = SidebarState(
    isOpen: bool, width: int, isResizing: bool, activeTab: SidebarTab,
    rootPath: Option<string>, treeData: seq<FileTreeNode>, recentFiles: seq<RecentFile>)

  /** `loadParentDirectory`: nothing for a path without a folder part; a new folder becomes
    * the root and its listing (when it succeeds) the tree; the sidebar opens on request. */
  function LoadParentSpec(s: SidebarState, filePath: string, openSidebar: bool, listing: Result<seq<FileTreeNode>, string>): SidebarState {
    var dir := ParentDirAsWritten(filePath);
    if dir == "" then s
    else
      var s1 := if s.rootPath != Some(dir) then
        s.(rootPath := Some(dir), treeData := if listing.Ok? then listing.value else s.treeData)
      else s;
      if openSidebar then s1.(isOpen := true) else s1
  }

  /** After a load the root is the file's folder and the sidebar is open iff it was or was
    * asked to be; a repeated load of the same file changes nothing further. */
  lemma LoadParentSettles(s: SidebarState, filePath: string, openSidebar: bool,
                          l1: Result<seq<FileTreeNode>, string>, l2: Result<seq<FileTreeNode>, string>)
    requires ParentDirAsWritten(filePath) != ""
    ensures var t := LoadParentSpec(s, filePath, openSidebar, l1);
      t.rootPath == Some(ParentDirAsWritten(filePath))
      && t.isOpen == (s.isOpen || openSidebar)
      && (s.rootPath == Some(ParentDirAsWritten(filePath)) ==> t.treeData == s.treeData)
      && t.recentFiles == s.recentFiles && t.width == s.width && t.activeTab == s.activeTab
      && LoadParentSpec(t, filePath, openSidebar, l2) == t
  {
  }

  /** For a path with a folder part the root becomes that folder; a path without one
    * changes nothing under the intended reading, but a bare name of two or more
    * characters becomes a root as written. */
  lemma LoadParentFolder(s: SidebarState, filePath: string, openSidebar: bool, listing: Result<seq<FileTreeNode>, string>)
    ensures '/' in filePath && ParentDir(filePath) != "" ==>
      LoadParentSpec(s, filePath, openSidebar, listing).rootPath == Some(ParentDir(filePath))
    ensures '/' in filePath && ParentDir(filePath) == "" ==> LoadParentSpec(s, filePath, openSidebar, listing) == s
    ensures '/' !in filePath && |filePath| >= 2 ==>
      LoadParentSpec(s, filePath, openSidebar, listing).rootPath == Some(filePath[..|filePath| - 1])
  {
    if '/' in filePath {
      ParentDirAgrees(filePath);
    }
  }

  class SidebarStore {
    var isOpen: bool
    var width: int
    var isResizing: bool
    var activeTab: SidebarTab
    var rootPath: Option<string>
    var treeData: seq<FileTreeNode>
    var recentFiles: seq<RecentFile>

    function State(): SidebarState
      reads this
    {
      SidebarState(isOpen, width, isResizing, activeTab, rootPath, treeData, recentFiles)
    }

    /** The initial state, from the stored width text and the stored recent-files list. */
    constructor (storedWidth: Option<string>, storedRecent: seq<RecentFile>)
      ensures State() == SidebarState(false, LoadWidth(storedWidth), false, Files, None, [], storedRecent)
    {
      isOpen, width, isResizing, activeTab := false, LoadWidth(storedWidth), false, Files;
      rootPath, treeData, recentFiles := None, [], storedRecent;
    }

    method Toggle()
      modifies this
      ensures State() == old(State()).(isOpen := !old(isOpen))
    {
      isOpen := !isOpen;
    }

    method SetOpen(open: bool)
      modifies this
      ensures State() == old(State()).(isOpen := open)
    {
      isOpen := open;
    }

    method SetWidth(w: int)
      modifies this
      ensures State() == old(State()).(width := w)
    {
      width := w;
    }

    method SetResizing(resizing: bool)
      modifies this
      ensures State() == old(State()).(isResizing := resizing)
    {
      isResizing := resizing;
    }

    method SetActiveTab(tab: SidebarTab)
      modifies this
      ensures State() == old(State()).(activeTab := tab)
    {
      activeTab := tab;
    }

    method SetRootPath(path: string)
      modifies this
      ensures State() == old(State()).(rootPath := Some(path))
    {
      rootPath := Some(path);
    }

    method SetTreeData(data: seq<FileTreeNode>)
      modifies this
      ensures State() == old(State()).(treeData := data)
    {
      treeData := data;
    }

    method UpdateNodeChildren(parentId: string, children: seq<FileTreeNode>)
      modifies this
      ensures State() == old(State()).(treeData := UpdateChildren(old(treeData), parentId, children))
    {
      treeData := UpdateChildren(treeData, parentId, children);
    }

    method AddRecentFile(path: string, name: string, now: int)
      modifies this
      ensures State() == old(State()).(recentFiles := AddRecent(old(recentFiles), path, name, now))
    {
      var filtered := WithoutPath(recentFiles, path);
      var updated := [RecentFile(path, name, now)] + filtered;
      if |updated| > MaxRecent {
        updated := updated[..MaxRecent];
      }
      recentFiles := updated;
    }

    /** `loadParentDirectory`, with the folder taken by `ParentDirAsWritten`; `listing` is the result
      * of `loadDirectoryEntries` for that folder. */
    method LoadParentDirectory(filePath: string, openSidebar: bool, listing: Result<seq<FileTreeNode>, string>)
      modifies this
      ensures State() == LoadParentSpec(old(State()), filePath, openSidebar, listing)
    {
      var dir := ParentDirAsWritten(filePath);
      if dir == "" {
        return;
      }
      if rootPath != Some(dir) {
        rootPath := Some(dir);
        if listing.Ok? {
          treeData := listing.value;
        }
      }
      if openSidebar {
        isOpen := true;
      }
    }
  }
}
