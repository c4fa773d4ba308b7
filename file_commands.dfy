/**
 * The file commands of the Rust backend over a filesystem held as a map from paths to
 * nodes. Every command validates each path argument first; the operating-system calls
 * (`metadata`, `read_to_string`, `write`, `rename`, `remove_file`, `copy`) are modelled
 * by step functions that either give the new map or fail with an `Io` error kind.
 */
module FileCommands {
  import opened Wrappers
  import opened AppErrors
  import opened PathValidation

  newtype byte = x: int | 0 <= x < 256

  predicate Cont(b: byte) { 0x80 <= b <= 0xBF }

  /** Well-formed UTF-8 (the byte sequences of Table 3-7 of the Unicode Standard): a Rust
    * `String` is exactly such a byte sequence, and `read_to_string` fails on anything else. */
  predicate ValidUtf8(b: seq<byte>)
    decreases |b|
  {
    if b == [] then true
    else if b[0] <= 0x7F then ValidUtf8(b[1..])
    else if 0xC2 <= b[0] <= 0xDF then |b| >= 2 && Cont(b[1]) && ValidUtf8(b[2..])
    else if b[0] == 0xE0 then |b| >= 3 && 0xA0 <= b[1] <= 0xBF && Cont(b[2]) && ValidUtf8(b[3..])
    else if 0xE1 <= b[0] <= 0xEC || 0xEE <= b[0] <= 0xEF then
      |b| >= 3 && Cont(b[1]) && Cont(b[2]) && ValidUtf8(b[3..])
    else if b[0] == 0xED then |b| >= 3 && 0x80 <= b[1] <= 0x9F && Cont(b[2]) && ValidUtf8(b[3..])
    else if b[0] == 0xF0 then
      |b| >= 4 && 0x90 <= b[1] <= 0xBF && Cont(b[2]) && Cont(b[3]) && ValidUtf8(b[4..])
    else if 0xF1 <= b[0] <= 0xF3 then
      |b| >= 4 && Cont(b[1]) && Cont(b[2]) && Cont(b[3]) && ValidUtf8(b[4..])
    else if b[0] == 0xF4 then
      |b| >= 4 && 0x80 <= b[1] <= 0x8F && Cont(b[2]) && Cont(b[3]) && ValidUtf8(b[4..])
    else false
  }

  /** A Rust `String`: its UTF-8 bytes. */
  type Text = b: seq<byte> | ValidUtf8(b) witness []

  /** A filesystem entry with its metadata; `modified` is in nanoseconds since the Unix
    * epoch (negative before it) or absent when the platform gives no time. */
  datatype Node =
    | File(data: seq<byte>, modified: Option<int>)
    | Dir(size: nat, modified: Option<int>)

  /** `metadata.len()`. */
  function Size(n: Node): nat {
    if n.File? then |n.data| else n.size
  }

  type FsMap = map<Path, Node>

  /** The validated path with ".tmp" appended to its text, as `write_file` builds it. */
  function TmpPath(p: Path): (t: Path)
    ensures t != p
    ensures p != [] && p[|p| - 1].Normal? ==> Parent(t) == Parent(p)
  {
    if p == [] then [Normal(".tmp")]
    else
      var init := p[..|p| - 1];
      match p[|p| - 1]
      case Normal(n) =>
        assert |n + ".tmp"| != |n|;
        init + [Normal(n + ".tmp")]
      case RootDir => p + [Normal(".tmp")]
      case CurDir => init + [Normal("..tmp")]
      case ParentDir => init + [Normal("...tmp")]
  }

  /** Why a file cannot be created or truncated at `p`: it is a directory, or its parent
    * is missing or not a directory. */
  function CreateError(nodes: FsMap, p: Path): Option<IoKind> {
    if p in nodes && nodes[p].Dir? then Some(IsADirectory)
    else
      match Parent(p)
      case None => Some(NotFound)
      case Some(q) =>
        if q !in nodes then Some(NotFound)
        else if !nodes[q].Dir? then Some(IoKind.NotADirectory)
        else None
  }

  /** `fs::write(p, data)`: creates or truncates the file. */
  function WriteStep(nodes: FsMap, p: Path, data: seq<byte>, now: int): (r: Result<FsMap, IoKind>)
    ensures r.Ok? ==> r.value == nodes[p := File(data, Some(now))]
  {
    match CreateError(nodes, p)
    case Some(k) => Err(k)
    case None => Ok(nodes[p := File(data, Some(now))])
  }

  predicate IsPrefix(a: Path, q: Path) {
    |a| <= |q| && q[..|a|] == a
  }

  predicate HasChildren(nodes: FsMap, d: Path) {
    exists q :: q in nodes && IsPrefix(d, q) && q != d
  }

  /** The entries under `a` (itself included), each placed at the same place under `b`. */
  function Moved(nodes: FsMap, a: Path, b: Path): (r: FsMap)
    ensures forall x :: x in nodes && IsPrefix(a, x) ==> b + x[|a|..] in r && r[b + x[|a|..]] == nodes[x]
    ensures forall q :: q in r <==> IsPrefix(b, q) && a + q[|b|..] in nodes
  {
    assert forall x, y :: (x in nodes && IsPrefix(a, x) && y in nodes && IsPrefix(a, y) && b + x[|a|..] == b + y[|a|..]) ==> x == y by {
      forall x, y | x in nodes && IsPrefix(a, x) && y in nodes && IsPrefix(a, y) && b + x[|a|..] == b + y[|a|..]
        ensures x == y
      {
        assert x[|a|..] == (b + x[|a|..])[|b|..] == (b + y[|a|..])[|b|..] == y[|a|..];
        assert x == x[..|a|] + x[|a|..] && y == y[..|a|] + y[|a|..];
      }
    }
    var moved := map x | x in nodes && IsPrefix(a, x) :: b + x[|a|..] := nodes[x];
    assert forall x :: x in nodes && IsPrefix(a, x) ==> b + x[|a|..] in moved && moved[b + x[|a|..]] == nodes[x] by {
      forall x | x in nodes && IsPrefix(a, x) ensures b + x[|a|..] in moved && moved[b + x[|a|..]] == nodes[x] {
      }
    }
    forall q ensures q in moved <==> IsPrefix(b, q) && a + q[|b|..] in nodes {
      MovedKey(nodes, a, b, q, moved);
    }
    moved
  }

  /** A path is a moved key exactly when it lies under `b` and its counterpart under `a` exists. */
  lemma MovedKey(nodes: FsMap, a: Path, b: Path, q: Path, moved: FsMap)
    requires forall x :: x in moved <==> exists y :: y in nodes && IsPrefix(a, y) && x == b + y[|a|..]
    ensures q in moved <==> IsPrefix(b, q) && a + q[|b|..] in nodes
  {
    if IsPrefix(b, q) && a + q[|b|..] in nodes {
      var y := a + q[|b|..];
      assert y[|a|..] == q[|b|..] && q == q[..|b|] + q[|b|..];
      assert IsPrefix(a, y) && q == b + y[|a|..];
    }
    if q in moved {
      var y :| y in nodes && IsPrefix(a, y) && q == b + y[|a|..];
      assert q[|b|..] == y[|a|..] && y == y[..|a|] + y[|a|..];
    }
  }

  /** The entries under `a` (itself included) moved under `b`; everything else, except an
    * empty directory at `b`, stays. */
  function MoveTree(nodes: FsMap, a: Path, b: Path): (r: FsMap)
    requires !IsPrefix(a, b)
    ensures forall x :: x in nodes && IsPrefix(a, x) ==> b + x[|a|..] in r && r[b + x[|a|..]] == nodes[x]
    ensures forall q :: q in r <==>
      (q in nodes && !IsPrefix(a, q) && q != b) || (IsPrefix(b, q) && a + q[|b|..] in nodes)
    ensures forall q :: q in nodes && !IsPrefix(a, q) && !IsPrefix(b, q) ==> q in r && r[q] == nodes[q]
  {
    var kept := map q | q in nodes && !IsPrefix(a, q) && q != b :: nodes[q];
    kept + Moved(nodes, a, b)
  }

  /** `fs::rename(a, b)` with the POSIX rules: a file replaces any file at `b`, a directory
    * replaces only an empty directory and cannot move into itself. */
  function RenameStep(nodes: FsMap, a: Path, b: Path): Result<FsMap, IoKind> {
    if a !in nodes then Err(NotFound)
    else if a == b then Ok(nodes)
    else if b in nodes && nodes[a].File? && nodes[b].Dir? then Err(IsADirectory)
    else if b in nodes && nodes[a].Dir? && nodes[b].File? then Err(IoKind.NotADirectory)
    else
      match Parent(b)
      case None => Err(InvalidInput)
      case Some(q) =>
        if q !in nodes then Err(NotFound)
        else if !nodes[q].Dir? then Err(IoKind.NotADirectory)
        else if nodes[a].File? then Ok((nodes - {a})[b := nodes[a]])
        else if b in nodes && HasChildren(nodes, b) then Err(DirectoryNotEmpty)
        else if IsPrefix(a, b) then Err(InvalidInput)
        else Ok(MoveTree(nodes, a, b))
  }

  /** `fs::remove_file(p)`. */
  function RemoveStep(nodes: FsMap, p: Path): Result<FsMap, IoKind> {
    if p !in nodes then Err(NotFound)
    else if nodes[p].Dir? then Err(IsADirectory)
    else Ok(nodes - {p})
  }

  /** `fs::copy(src, dest)`: only a regular file can be copied. The destination is opened
    * for writing with truncation before any byte is read, so a file copied onto itself
    * ends up empty. */
  function CopyStep(nodes: FsMap, src: Path, dest: Path, now: int): Result<FsMap, IoKind> {
    if src !in nodes then Err(NotFound)
    else if nodes[src].Dir? then Err(InvalidInput)
    else WriteStep(nodes, dest, if src == dest then [] else nodes[src].data, now)
  }

  /** Outcome of a command that changes the filesystem: its result and the new map. */
  datatype Outcome = Outcome(result: Result<(), AppError>, nodes: FsMap)

  function Lift(nodes: FsMap, step: Result<FsMap, IoKind>): Outcome {
    match step
    case Ok(n) => Outcome(Ok(()), n)
    case Err(k) => Outcome(Err(Io(k)), nodes)
  }

  function ReadFileSpec(nodes: FsMap, canon: Path -> Option<Path>, path: string): Result<Text, AppError> {
    match ValidatePath(path, canon)
    case Err(e) => Err(e)
    case Ok(p) =>
      if p !in nodes then Err(Io(NotFound))
      else if Size(nodes[p]) > MAX_FILE_SIZE then Err(FileTooLarge(Size(nodes[p]), MAX_FILE_SIZE))
      else if nodes[p].Dir? then Err(Io(IsADirectory))
      else if ValidUtf8(nodes[p].data) then Ok(nodes[p].data)
      else Err(Io(InvalidData))
  }

  function WriteFileSpec(nodes: FsMap, canon: Path -> Option<Path>, path: string, content: Text, now: int): Outcome {
    match ValidatePath(path, canon)
    case Err(e) => Outcome(Err(e), nodes)
    case Ok(p) =>
      var tmp := TmpPath(p);
      match WriteStep(nodes, tmp, content, now)
      case Err(k) => Outcome(Err(Io(k)), nodes)
      case Ok(n1) => Lift(n1, RenameStep(n1, tmp, p))
  }

  function RenameFileSpec(nodes: FsMap, canon: Path -> Option<Path>, oldPath: string, newPath: string): Outcome {
    match ValidatePath(oldPath, canon)
    case Err(e) => Outcome(Err(e), nodes)
    case Ok(a) =>
      match ValidatePath(newPath, canon)
      case Err(e) => Outcome(Err(e), nodes)
      case Ok(b) => Lift(nodes, RenameStep(nodes, a, b))
  }

  function DeleteFileSpec(nodes: FsMap, canon: Path -> Option<Path>, path: string): Outcome {
    match ValidatePath(path, canon)
    case Err(e) => Outcome(Err(e), nodes)
    case Ok(p) => Lift(nodes, RemoveStep(nodes, p))
  }

  function CopyFileSpec(nodes: FsMap, canon: Path -> Option<Path>, srcPath: string, destPath: string, now: int): Outcome {
    match ValidatePath(srcPath, canon)
    case Err(e) => Outcome(Err(e), nodes)
    case Ok(s) =>
      match ValidatePath(destPath, canon)
      case Err(e) => Outcome(Err(e), nodes)
      case Ok(d) => Lift(nodes, CopyStep(nodes, s, d, now))
  }

  function WriteBinarySpec(nodes: FsMap, canon: Path -> Option<Path>, destPath: string, data: seq<byte>, now: int): Outcome {
    match ValidatePath(destPath, canon)
    case Err(e) => Outcome(Err(e), nodes)
    case Ok(p) => Lift(nodes, WriteStep(nodes, p, data, now))
  }

  /** The backend's view of the disk: the entries, and the `canonicalize` oracle. */
  class FileSystem {
    var nodes: FsMap
    const canon: Path -> Option<Path>

    constructor (nodes: FsMap, canon: Path -> Option<Path>)
      ensures this.nodes == nodes && this.canon == canon
    {
      this.nodes := nodes;
      this.canon := canon;
    }

    /** `metadata(p)` followed by `read_to_string(p)`. */
    method ReadFile(path: string) returns (r: Result<Text, AppError>)
      ensures r == ReadFileSpec(nodes, canon, path)
    {
      var v := ValidatePath(path, canon);
      if v.Err? {
        return Err(v.error);
      }
      var p := v.value;
      if p !in nodes {
        return Err(Io(NotFound));
      }
      var size := Size(nodes[p]);
      if size > MAX_FILE_SIZE {
        return Err(FileTooLarge(size, MAX_FILE_SIZE));
      }
      var node := nodes[p];
      if node.Dir? {
        return Err(Io(IsADirectory));
      }
      if !ValidUtf8(node.data) {
        return Err(Io(InvalidData));
      }
      return Ok(node.data);
    }

    method Apply(step: Result<FsMap, IoKind>) returns (r: Result<(), AppError>)
      modifies this
      ensures Outcome(r, nodes) == Lift(old(nodes), step)
    {
      match step
      case Ok(n) =>
        nodes := n;
        r := Ok(());
      case Err(k) =>
        r := Err(Io(k));
    }

    /** Writes `content` to the `.tmp` sibling, then renames it onto the target. */
    method WriteFile(path: string, content: Text, now: int) returns (r: Result<(), AppError>)
      modifies this
      ensures Outcome(r, nodes) == WriteFileSpec(old(nodes), canon, path, content, now)
    {
      var v := ValidatePath(path, canon);
      if v.Err? {
        return Err(v.error);
      }
      var tmp := TmpPath(v.value);
      r := Apply(WriteStep(nodes, tmp, content, now));
      if r.Err? {
        return;
      }
      r := Apply(RenameStep(nodes, tmp, v.value));
    }

    method RenameFile(oldPath: string, newPath: string) returns (r: Result<(), AppError>)
      modifies this
      ensures Outcome(r, nodes) == RenameFileSpec(old(nodes), canon, oldPath, newPath)
    {
      var a := ValidatePath(oldPath, canon);
      if a.Err? {
        return Err(a.error);
      }
      var b := ValidatePath(newPath, canon);
      if b.Err? {
        return Err(b.error);
      }
      r := Apply(RenameStep(nodes, a.value, b.value));
    }

    method DeleteFile(path: string) returns (r: Result<(), AppError>)
      modifies this
      ensures Outcome(r, nodes) == DeleteFileSpec(old(nodes), canon, path)
    {
      var v := ValidatePath(path, canon);
      if v.Err? {
        return Err(v.error);
      }
      r := Apply(RemoveStep(nodes, v.value));
    }

    method CopyFile(srcPath: string, destPath: string, now: int) returns (r: Result<(), AppError>)
      modifies this
      ensures Outcome(r, nodes) == CopyFileSpec(old(nodes), canon, srcPath, destPath, now)
    {
      var s := ValidatePath(srcPath, canon);
      if s.Err? {
        return Err(s.error);
      }
      var d := ValidatePath(destPath, canon);
      if d.Err? {
        return Err(d.error);
      }
      r := Apply(CopyStep(nodes, s.value, d.value, now));
    }

    method WriteBinaryFile(destPath: string, data: seq<byte>, now: int) returns (r: Result<(), AppError>)
      modifies this
      ensures Outcome(r, nodes) == WriteBinarySpec(old(nodes), canon, destPath, data, now)
    {
      var v := ValidatePath(destPath, canon);
      if v.Err? {
        return Err(v.error);
      }
      r := Apply(WriteStep(nodes, v.value, data, now));
    }
  }

  /** A failed validation of any argument returns that error and leaves the map alone. */
  lemma ValidationFailureChangesNothing(nodes: FsMap, canon: Path -> Option<Path>, a: string, b: string, content: Text, data: seq<byte>, now: int)
    requires ValidatePath(a, canon).Err?
    ensures ReadFileSpec(nodes, canon, a) == Err(ValidatePath(a, canon).error)
    ensures WriteFileSpec(nodes, canon, a, content, now) == Outcome(Err(ValidatePath(a, canon).error), nodes)
    ensures RenameFileSpec(nodes, canon, a, b) == Outcome(Err(ValidatePath(a, canon).error), nodes)
    ensures ValidatePath(b, canon).Ok? ==>
      RenameFileSpec(nodes, canon, b, a) == Outcome(Err(ValidatePath(a, canon).error), nodes)
    ensures DeleteFileSpec(nodes, canon, a) == Outcome(Err(ValidatePath(a, canon).error), nodes)
    ensures CopyFileSpec(nodes, canon, a, b, now) == Outcome(Err(ValidatePath(a, canon).error), nodes)
    ensures ValidatePath(b, canon).Ok? ==>
      CopyFileSpec(nodes, canon, b, a, now) == Outcome(Err(ValidatePath(a, canon).error), nodes)
    ensures WriteBinarySpec(nodes, canon, a, data, now) == Outcome(Err(ValidatePath(a, canon).error), nodes)
  {
  }

  /** A file above 50 MiB is refused with its size, without reading it. */
  lemma ReadTooLarge(nodes: FsMap, canon: Path -> Option<Path>, path: string)
    requires ValidatePath(path, canon).Ok? && ValidatePath(path, canon).value in nodes
    requires Size(nodes[ValidatePath(path, canon).value]) > MAX_FILE_SIZE
    ensures ReadFileSpec(nodes, canon, path) == Err(FileTooLarge(Size(nodes[ValidatePath(path, canon).value]), 52428800))
  {
  }

  /** A file within the limit is returned whole when it is valid UTF-8. */
  lemma ReadWithinLimit(nodes: FsMap, canon: Path -> Option<Path>, path: string)
    requires ValidatePath(path, canon).Ok? && ValidatePath(path, canon).value in nodes
    requires nodes[ValidatePath(path, canon).value].File?
    requires |nodes[ValidatePath(path, canon).value].data| <= MAX_FILE_SIZE
    ensures ReadFileSpec(nodes, canon, path).Ok? <==> ValidUtf8(nodes[ValidatePath(path, canon).value].data)
    ensures ReadFileSpec(nodes, canon, path).Ok? ==>
      ReadFileSpec(nodes, canon, path).value == nodes[ValidatePath(path, canon).value].data
  {
  }

  /** A successful text write leaves the content at the target and no `.tmp` entry. */
  lemma WriteFileSuccess(nodes: FsMap, canon: Path -> Option<Path>, path: string, content: Text, now: int)
    requires ValidatePath(path, canon).Ok?
    requires WriteFileSpec(nodes, canon, path, content, now).result.Ok?
    ensures var p := ValidatePath(path, canon).value;
      var after := WriteFileSpec(nodes, canon, path, content, now).nodes;
      p in after && after[p] == File(content, Some(now)) && TmpPath(p) !in after
      && forall q :: q != p && q != TmpPath(p) ==> (q in after <==> q in nodes) && (q in nodes ==> after[q] == nodes[q])
  {
    var p := ValidatePath(path, canon).value;
    var tmp := TmpPath(p);
    var n1 := nodes[tmp := File(content, Some(now))];
    assert WriteStep(nodes, tmp, content, now) == Ok(n1);
    assert n1[tmp].File?;
    assert RenameStep(n1, tmp, p) == Ok((n1 - {tmp})[p := n1[tmp]]);
  }

  /** When the temporary file cannot be written, nothing changes, the target included. */
  lemma TempWriteFailure(nodes: FsMap, canon: Path -> Option<Path>, path: string, content: Text, now: int)
    requires ValidatePath(path, canon).Ok?
    requires CreateError(nodes, TmpPath(ValidatePath(path, canon).value)).Some?
    ensures WriteFileSpec(nodes, canon, path, content, now) ==
      Outcome(Err(Io(CreateError(nodes, TmpPath(ValidatePath(path, canon).value)).value)), nodes)
  {
  }

  /** When the target is a directory the rename fails and the `.tmp` file stays behind. */
  lemma WriteOntoDirectory(nodes: FsMap, canon: Path -> Option<Path>, path: string, content: Text, now: int)
    requires ValidatePath(path, canon).Ok?
    requires var p := ValidatePath(path, canon).value; p in nodes && nodes[p].Dir?
    requires CreateError(nodes, TmpPath(ValidatePath(path, canon).value)).None?
    ensures var tmp := TmpPath(ValidatePath(path, canon).value);
      WriteFileSpec(nodes, canon, path, content, now) ==
      Outcome(Err(Io(IsADirectory)), nodes[tmp := File(content, Some(now))])
  {
    var p := ValidatePath(path, canon).value;
    var tmp := TmpPath(p);
    var n1 := nodes[tmp := File(content, Some(now))];
    assert p in n1 && n1[p].Dir?;
  }

  /** Writing text and reading it back gives the text, when it is within the size limit. */
  lemma WriteThenRead(nodes: FsMap, canon: Path -> Option<Path>, path: string, content: Text, now: int)
    requires WriteFileSpec(nodes, canon, path, content, now).result.Ok?
    requires |content| <= MAX_FILE_SIZE
    ensures ReadFileSpec(WriteFileSpec(nodes, canon, path, content, now).nodes, canon, path) == Ok(content)
  {
    WriteFileSuccess(nodes, canon, path, content, now);
  }

  /** Renaming a file moves its node from the old path to the new one; nothing else changes. */
  lemma RenameMovesFile(nodes: FsMap, a: Path, b: Path)
    requires a != b && a in nodes && nodes[a].File?
    requires RenameStep(nodes, a, b).Ok?
    ensures var after := RenameStep(nodes, a, b).value;
      a !in after && b in after && after[b] == nodes[a]
      && forall q :: q != a && q != b ==> (q in after <==> q in nodes) && (q in nodes ==> after[q] == nodes[q])
  {
  }

  /** Renaming a directory moves every entry under it to the same place under the new
    * path and removes it from the old one; entries outside both paths stay, and nothing
    * else appears. */
  lemma RenameMovesTree(nodes: FsMap, a: Path, b: Path)
    requires a != b && a in nodes && nodes[a].Dir?
    requires RenameStep(nodes, a, b).Ok?
    ensures var after := RenameStep(nodes, a, b).value;
      (forall x :: x in nodes && IsPrefix(a, x) ==> b + x[|a|..] in after && after[b + x[|a|..]] == nodes[x])
      && (forall q :: q in nodes && !IsPrefix(a, q) && !IsPrefix(b, q) ==> q in after && after[q] == nodes[q])
      && (forall x :: x in nodes && IsPrefix(a, x) && !IsPrefix(b, x) ==> x !in after)
      && (forall q :: q in after ==> (q in nodes && !IsPrefix(a, q)) || (IsPrefix(b, q) && a + q[|b|..] in nodes))
  {
    assert !IsPrefix(a, b);
  }

  /** Deleting removes exactly the one file. */
  lemma DeleteRemoves(nodes: FsMap, p: Path)
    requires RemoveStep(nodes, p).Ok?
    ensures p in nodes && nodes[p].File? && RemoveStep(nodes, p).value == nodes - {p}
  {
  }

  /** A copy between two paths makes the destination a file with the copied file's bytes
    * and leaves that file alone; a copy onto itself empties the file. */
  lemma CopyMakesEqual(nodes: FsMap, src: Path, dest: Path, now: int)
    requires CopyStep(nodes, src, dest, now).Ok?
    ensures var after := CopyStep(nodes, src, dest, now).value;
      src in nodes && src in after && dest in after && after[dest].File?
      && after[dest].data == (if src == dest then [] else nodes[src].data)
      && (src != dest ==> after[src] == nodes[src])
      && forall q :: q != dest ==> (q in after <==> q in nodes) && (q in nodes ==> after[q] == nodes[q])
  {
  }

  /** A binary write goes straight to the target: no temporary entry is created. */
  lemma WriteBinaryDirect(nodes: FsMap, canon: Path -> Option<Path>, path: string, data: seq<byte>, now: int)
    requires WriteBinarySpec(nodes, canon, path, data, now).result.Ok?
    ensures var p := ValidatePath(path, canon).value;
      WriteBinarySpec(nodes, canon, path, data, now).nodes == nodes[p := File(data, Some(now))]
  {
  }
}
