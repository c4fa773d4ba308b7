/**
 * `list_directory`: the entries of a directory, without hidden names and a fixed set of
 * build/dependency directories, sorted directories first and then by lower-cased name.
 * The order in which the operating system enumerates the directory is an input.
 */
module DirectoryListing {
  import opened Wrappers
  import opened Strings
  import opened AppErrors
  import opened PathValidation
  import opened FileCommands

  const SKIP_DIRS: seq<string> := ["node_modules", "target", "dist", "build", "__pycache__", ".git"]

  /** Hidden names and the skip set never reach the listing. */
  predicate Skipped(name: string) {
    StartsWith(name, ".") || name in SKIP_DIRS
  }

  datatype FileEntry = FileEntry(name: string, path: string, isDir: bool, size: nat, modified: nat)

  /** Whole seconds since the Unix epoch; 0 when there is no time or it is before the epoch. */
  function ModifiedSecs(m: Option<int>): (s: nat)
    ensures m.None? ==> s == 0
    ensures m.Some? && m.value < 0 ==> s == 0
    ensures m.Some? && m.value >= 0 ==> s * 1000000000 <= m.value < (s + 1) * 1000000000
  {
    match m
    case None => 0
    case Some(t) => if t < 0 then 0 else t / 1000000000
  }

  function ComponentText(c: Component): string {
    match c
    case RootDir => ""
    case CurDir => "."
    case ParentDir => ".."
    case Normal(n) => n
  }

  function ComponentTexts(p: Path): seq<string> {
    if p == [] then [] else [ComponentText(p[0])] + ComponentTexts(p[1..])
  }

  /** `to_string_lossy` of a path. */
  function Display(p: Path): string {
    if p != [] && p[0] == RootDir then "/" + Join(ComponentTexts(p[1..]), '/')
    else Join(ComponentTexts(p), '/')
  }

  /** The entry built from a child's name and metadata. */
  function MakeEntry(name: string, child: Path, node: Node): (e: FileEntry)
    ensures e.name == name && e.path == Display(child)
    ensures e.isDir == node.Dir? && e.size == Size(node) && e.modified == ModifiedSecs(node.modified)
  {
    FileEntry(name, Display(child), node.Dir?, Size(node), ModifiedSecs(node.modified))
  }

  /** The entries the loop collects from the enumerated names, in enumeration order; a
    * name whose metadata cannot be read ends the command with an `Io` error. */
  function Collect(nodes: FsMap, dir: Path, names: seq<string>): Result<seq<FileEntry>, AppError>
    decreases |names|
  {
    if names == [] then Ok([])
    else
      var name := names[|names| - 1];
      match Collect(nodes, dir, names[..|names| - 1])
      case Err(e) => Err(e)
      case Ok(es) =>
        if Skipped(name) then Ok(es)
        else if dir + [Normal(name)] !in nodes then Err(Io(NotFound))
        else Ok(es + [MakeEntry(name, dir + [Normal(name)], nodes[dir + [Normal(name)]])])
  }

  /** The names that survive the filter, in order. */
  function Kept(names: seq<string>): (k: seq<string>)
    ensures forall i :: 0 <= i < |k| ==> !Skipped(k[i]) && k[i] in names
  {
    if names == [] then []
    else if Skipped(names[|names| - 1]) then Kept(names[..|names| - 1])
    else Kept(names[..|names| - 1]) + [names[|names| - 1]]
  }

  function Names(es: seq<FileEntry>): seq<string> {
    seq(|es|, i requires 0 <= i < |es| => es[i].name)
  }

  /** Collected entries carry exactly the kept names, in order, each with the metadata of
    * its child node. */
  lemma {:induction false} CollectNames(nodes: FsMap, dir: Path, names: seq<string>)
    requires Collect(nodes, dir, names).Ok?
    ensures var es := Collect(nodes, dir, names).value;
      Names(es) == Kept(names)
      && forall i :: 0 <= i < |es| ==>
           (dir + [Normal(es[i].name)] in nodes
            && es[i] == MakeEntry(es[i].name, dir + [Normal(es[i].name)], nodes[dir + [Normal(es[i].name)]]))
    decreases |names|
  {
    if names != [] {
      CollectNames(nodes, dir, names[..|names| - 1]);
    }
  }

  /** Once a prefix of the enumeration fails, the whole listing fails with that error. */
  lemma {:induction false} CollectErrSticks(nodes: FsMap, dir: Path, names: seq<string>, i: nat)
    requires i <= |names| && Collect(nodes, dir, names[..i]).Err?
    ensures Collect(nodes, dir, names) == Collect(nodes, dir, names[..i])
    decreases |names| - i
  {
    if i < |names| {
      assert names[..i + 1][..i] == names[..i];
      CollectErrSticks(nodes, dir, names, i + 1);
    } else {
      assert names[..i] == names;
    }
  }

  /** Code-point order of strings, which is the byte order of their UTF-8 encodings. */
  predicate LexLe(a: string, b: string)
    decreases |a|
  {
    |a| == 0 || (|b| > 0 && (a[0] < b[0] || (a[0] == b[0] && LexLe(a[1..], b[1..]))))
  }

  lemma {:induction false} LexLeRefl(a: string)
    ensures LexLe(a, a)
    decreases |a|
  {
    if |a| > 0 { LexLeRefl(a[1..]); }
  }

  lemma {:induction false} LexLeTotal(a: string, b: string)
    ensures LexLe(a, b) || LexLe(b, a)
    decreases |a|
  {
    if |a| > 0 && |b| > 0 && a[0] == b[0] { LexLeTotal(a[1..], b[1..]); }
  }

  lemma {:induction false} LexLeTrans(a: string, b: string, c: string)
    requires LexLe(a, b) && LexLe(b, c)
    ensures LexLe(a, c)
    decreases |a|
  {
    if |a| > 0 && |b| > 0 && |c| > 0 && a[0] == b[0] && b[0] == c[0] { LexLeTrans(a[1..], b[1..], c[1..]); }
  }

  lemma {:induction false} LexLeAntisym(a: string, b: string)
    requires LexLe(a, b) && LexLe(b, a)
    ensures a == b
    decreases |a|
  {
    if |a| > 0 {
      LexLeAntisym(a[1..], b[1..]);
      assert a == [a[0]] + a[1..] && b == [b[0]] + b[1..];
    }
  }

  /** The two sort keys: directory flag (true first), then the lower-cased name. */
  datatype Key = Key(isDir: bool, lowerName: string)

  function KeyOf(e: FileEntry): Key {
    Key(e.isDir, ToLower(e.name))
  }

  /** `b.is_dir.cmp(&a.is_dir).then_with(|| lower(a.name).cmp(&lower(b.name)))` is not Greater. */
  predicate Le(a: FileEntry, b: FileEntry) {
    (a.isDir && !b.isDir) || (a.isDir == b.isDir && LexLe(ToLower(a.name), ToLower(b.name)))
  }

  lemma LeTotal(a: FileEntry, b: FileEntry)
    ensures Le(a, b) || Le(b, a)
  {
    LexLeTotal(ToLower(a.name), ToLower(b.name));
  }

  lemma LeTrans(a: FileEntry, b: FileEntry, c: FileEntry)
    requires Le(a, b) && Le(b, c)
    ensures Le(a, c)
  {
    if a.isDir == b.isDir && b.isDir == c.isDir {
      LexLeTrans(ToLower(a.name), ToLower(b.name), ToLower(c.name));
    }
  }

  lemma LeSameKey(a: FileEntry, b: FileEntry)
    requires KeyOf(a) == KeyOf(b)
    ensures Le(a, b)
  {
    LexLeRefl(ToLower(a.name));
  }

  predicate Sorted(s: seq<FileEntry>) {
    forall i, j :: 0 <= i < j < |s| ==> Le(s[i], s[j])
  }

  /** Puts `x` before the first element it is not greater than. */
  function Insert(x: FileEntry, t: seq<FileEntry>): (r: seq<FileEntry>)
    ensures multiset(r) == multiset(t) + multiset{x}
  {
    if t == [] then [x]
    else if Le(x, t[0]) then [x] + t
    else
      assert t == [t[0]] + t[1..];
      [t[0]] + Insert(x, t[1..])
  }

  /** A stable sort by the two keys (Rust's `sort_by` is stable). */
  function SortEntries(s: seq<FileEntry>): (r: seq<FileEntry>)
    ensures multiset(r) == multiset(s)
  {
    if s == [] then []
    else
      assert s == [s[0]] + s[1..];
      Insert(s[0], SortEntries(s[1..]))
  }

  lemma {:induction false} InsertSorted(x: FileEntry, t: seq<FileEntry>)
    requires Sorted(t)
    ensures Sorted(Insert(x, t))
    decreases |t|
  {
    if t == [] {
    } else if Le(x, t[0]) {
      forall j | 0 < j < |t| ensures Le(x, t[j]) { LeTrans(x, t[0], t[j]); }
    } else {
      LeTotal(x, t[0]);
      InsertSorted(x, t[1..]);
      var r := Insert(x, t[1..]);
      forall j | 0 <= j < |r| ensures Le(t[0], r[j]) {
        assert r[j] in multiset(r);
        if r[j] != x {
          assert r[j] in multiset(t[1..]);
          var k :| 0 <= k < |t[1..]| && t[1..][k] == r[j];
          assert t[k + 1] == r[j];
        }
      }
    }
  }

  /** The listing is ordered: directories first, then by lower-cased name. */
  lemma {:induction false} SortEntriesSorted(s: seq<FileEntry>)
    ensures Sorted(SortEntries(s))
    decreases |s|
  {
    if s != [] {
      SortEntriesSorted(s[1..]);
      InsertSorted(s[0], SortEntries(s[1..]));
    }
  }

  /** The entries of `s` with key `k`, in order. */
  function WithKey(s: seq<FileEntry>, k: Key): seq<FileEntry> {
    if s == [] then []
    else if KeyOf(s[0]) == k then [s[0]] + WithKey(s[1..], k)
    else WithKey(s[1..], k)
  }

  lemma {:induction false} InsertStable(x: FileEntry, t: seq<FileEntry>, k: Key)
    ensures WithKey(Insert(x, t), k) == if KeyOf(x) == k then [x] + WithKey(t, k) else WithKey(t, k)
    decreases |t|
  {
    if t != [] && !Le(x, t[0]) {
      if KeyOf(t[0]) == KeyOf(x) { LeSameKey(x, t[0]); }
      InsertStable(x, t[1..], k);
    }
  }

  /** Stability: entries with equal keys keep their enumeration order. */
  lemma {:induction false} SortEntriesStable(s: seq<FileEntry>, k: Key)
    ensures WithKey(SortEntries(s), k) == WithKey(s, k)
    decreases |s|
  {
    if s != [] {
      SortEntriesStable(s[1..], k);
      InsertStable(s[0], SortEntries(s[1..]), k);
    }
  }

  function ListDirectorySpec(nodes: FsMap, canon: Path -> Option<Path>, path: string, names: seq<string>): Result<seq<FileEntry>, AppError> {
    match ValidatePath(path, canon)
    case Err(e) => Err(e)
    case Ok(dir) =>
      if dir !in nodes then Err(Io(NotFound))
      else if !nodes[dir].Dir? then Err(AppError.NotADirectory(path))
      else
        match Collect(nodes, dir, names)
        case Err(e) => Err(e)
        case Ok(es) => Ok(SortEntries(es))
  }

  /** `list_directory(path)`, where `names` is the order in which `read_dir` yields the
    * directory's children. */
  method ListDirectory(fs: FileSystem, path: string, names: seq<string>) returns (r: Result<seq<FileEntry>, AppError>)
    ensures r == ListDirectorySpec(fs.nodes, fs.canon, path, names)
  {
    var v := ValidatePath(path, fs.canon);
    if v.Err? {
      return Err(v.error);
    }
    var dir := v.value;
    if dir !in fs.nodes {
      return Err(Io(NotFound));
    }
    if !fs.nodes[dir].Dir? {
      return Err(AppError.NotADirectory(path));
    }
    var entries: seq<FileEntry> := [];
    var i := 0;
    while i < |names|
      invariant 0 <= i <= |names|
      invariant Collect(fs.nodes, dir, names[..i]) == Ok(entries)
    {
      var name := names[i];
      assert names[..i + 1][..i] == names[..i];
      if Skipped(name) {
        i := i + 1;
        continue;
      }
      var child := dir + [Normal(name)];
      if child !in fs.nodes {
        CollectErrSticks(fs.nodes, dir, names, i + 1);
        return Err(Io(NotFound));
      }
      entries := entries + [MakeEntry(name, child, fs.nodes[child])];
      i := i + 1;
    }
    assert names[..i] == names;
    return Ok(SortEntries(entries));
  }

  /** A validated path that is not a directory is reported with the caller's own string. */
  lemma NotADirectoryKeepsInput(nodes: FsMap, canon: Path -> Option<Path>, path: string, names: seq<string>)
    requires ValidatePath(path, canon).Ok?
    requires ValidatePath(path, canon).value in nodes && nodes[ValidatePath(path, canon).value].File?
    ensures ListDirectorySpec(nodes, canon, path, names) == Err(AppError.NotADirectory(path))
  {
  }

  /** A successful listing holds exactly the kept names (each once when the enumeration
    * names each child once), with each child's metadata, sorted and stable. */
  lemma ListingContents(nodes: FsMap, canon: Path -> Option<Path>, path: string, names: seq<string>)
    requires ListDirectorySpec(nodes, canon, path, names).Ok?
    ensures var es := ListDirectorySpec(nodes, canon, path, names).value;
      var dir := ValidatePath(path, canon).value;
      multiset(Names(es)) == multiset(Kept(names))
      && (forall i :: 0 <= i < |es| ==> !Skipped(es[i].name))
      && (forall i :: 0 <= i < |es| ==>
            (dir + [Normal(es[i].name)] in nodes
             && es[i] == MakeEntry(es[i].name, dir + [Normal(es[i].name)], nodes[dir + [Normal(es[i].name)]])))
      && Sorted(es)
      && forall k :: WithKey(es, k) == WithKey(Collect(nodes, dir, names).value, k)
  {
    var dir := ValidatePath(path, canon).value;
    var raw := Collect(nodes, dir, names).value;
    var es := SortEntries(raw);
    assert ListDirectorySpec(nodes, canon, path, names).value == es;
    CollectNames(nodes, dir, names);
    SortEntriesSorted(raw);
    forall k ensures WithKey(es, k) == WithKey(raw, k) { SortEntriesStable(raw, k); }
    SortEntriesNames(raw);
    forall i | 0 <= i < |es| ensures !Skipped(es[i].name) && dir + [Normal(es[i].name)] in nodes
      && es[i] == MakeEntry(es[i].name, dir + [Normal(es[i].name)], nodes[dir + [Normal(es[i].name)]])
    {
      assert es[i] in multiset(raw);
      CollectedEntry(nodes, dir, names, es[i]);
    }
  }

  /** When `read_dir` yields each child of the directory once and nothing else, every child
    * that is neither hidden nor in the skip set appears exactly once in the listing, and
    * nothing else appears. */
  lemma ListingHasEveryChild(nodes: FsMap, canon: Path -> Option<Path>, path: string, names: seq<string>)
    requires ListDirectorySpec(nodes, canon, path, names).Ok?
    requires forall n :: n in names <==> ValidatePath(path, canon).value + [Normal(n)] in nodes
    requires forall i, j :: 0 <= i < j < |names| ==> names[i] != names[j]
    ensures var es := ListDirectorySpec(nodes, canon, path, names).value;
      var dir := ValidatePath(path, canon).value;
      forall n :: multiset(Names(es))[n] == if dir + [Normal(n)] in nodes && !Skipped(n) then 1 else 0
  {
    var es := ListDirectorySpec(nodes, canon, path, names).value;
    ListingContents(nodes, canon, path, names);
    forall n ensures multiset(Kept(names))[n] == if n in names && !Skipped(n) then 1 else 0 {
      KeptCount(names, n);
    }
  }

  /** Every collected entry is a kept child with that child's metadata. */
  lemma CollectedEntry(nodes: FsMap, dir: Path, names: seq<string>, e: FileEntry)
    requires Collect(nodes, dir, names).Ok? && e in Collect(nodes, dir, names).value
    ensures !Skipped(e.name) && dir + [Normal(e.name)] in nodes
      && e == MakeEntry(e.name, dir + [Normal(e.name)], nodes[dir + [Normal(e.name)]])
  {
    var raw := Collect(nodes, dir, names).value;
    CollectNames(nodes, dir, names);
    var j :| 0 <= j < |raw| && raw[j] == e;
    assert Names(raw)[j] == e.name;
    assert Kept(names)[j] == e.name;
  }

  lemma NamesCons(x: FileEntry, t: seq<FileEntry>)
    ensures Names([x] + t) == [x.name] + Names(t)
  {
  }

  lemma {:induction false} InsertNames(x: FileEntry, t: seq<FileEntry>)
    ensures multiset(Names(Insert(x, t))) == multiset(Names(t)) + multiset{x.name}
    decreases |t|
  {
    if t == [] {
      assert Names([x]) == [x.name];
    } else if Le(x, t[0]) {
      NamesCons(x, t);
    } else {
      var r := Insert(x, t[1..]);
      assert Insert(x, t) == [t[0]] + r;
      InsertNames(x, t[1..]);
      NamesCons(t[0], r);
      NamesCons(t[0], t[1..]);
      assert t == [t[0]] + t[1..];
    }
  }

  /** Sorting keeps the multiset of names. */
  lemma {:induction false} SortEntriesNames(s: seq<FileEntry>)
    ensures multiset(Names(SortEntries(s))) == multiset(Names(s))
    decreases |s|
  {
    if s != [] {
      SortEntriesNames(s[1..]);
      InsertNames(s[0], SortEntries(s[1..]));
      assert Names(s) == [s[0].name] + Names(s[1..]);
    }
  }

  /** With a duplicate-free enumeration, every kept child appears exactly once. */
  lemma KeptOnce(names: seq<string>, n: string)
    requires forall i, j :: 0 <= i < j < |names| ==> names[i] != names[j]
    requires n in names && !Skipped(n)
    ensures multiset(Kept(names))[n] == 1
  {
    KeptCount(names, n);
  }

  lemma {:induction false} KeptCount(names: seq<string>, n: string)
    requires forall i, j :: 0 <= i < j < |names| ==> names[i] != names[j]
    ensures multiset(Kept(names))[n] == if n in names && !Skipped(n) then 1 else 0
    decreases |names|
  {
    if names != [] {
      var init := names[..|names| - 1];
      KeptCount(init, n);
      assert names == init + [names[|names| - 1]];
    }
  }
}
