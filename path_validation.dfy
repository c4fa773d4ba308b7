/**
 * The path gate of the Rust backend (`validate_path`). A path is the sequence of its
 * components as Rust's `Path::components` yields them on Unix; the operating system's
 * `canonicalize` is an oracle `canon` that either resolves a path or fails.
 */
module PathValidation {
  import opened Wrappers
  import opened Strings
  import opened AppErrors

  datatype Component = RootDir | CurDir | ParentDir | Normal(name: string)

  type Path = seq<Component>

  /** 50 MiB, the largest file `read_file` reads. */
  const MAX_FILE_SIZE: nat := 50 * 1024 * 1024

  /** One '/'-separated piece of a relative path; `first` tells whether it is the first piece. */
  function PieceComponents(piece: string, first: bool): Path {
    if piece == "" then []
    else if piece == "." then (if first then [CurDir] else [])
    else if piece == ".." then [ParentDir]
    else [Normal(piece)]
  }

  function PiecesComponents(pieces: seq<string>, first: bool): Path
    decreases |pieces|
  {
    if pieces == [] then []
    else PieceComponents(pieces[0], first) + PiecesComponents(pieces[1..], false)
  }

  /** `PathBuf::from(s).components()`: a leading '/' is the root, empty pieces and '.'
    * pieces vanish except for a leading '.', and '..' is a parent reference. */
  function Parse(raw: string): (p: Path)
    ensures forall i :: 0 <= i < |p| ==> p[i].Normal? ==> p[i].name != "" && '/' !in p[i].name
  {
    var pieces := Split(raw, '/');
    if raw != [] && raw[0] == '/' then [RootDir] + PiecesOk(pieces[1..], false)
    else PiecesOk(pieces, true)
  }

  function PiecesOk(pieces: seq<string>, first: bool): (p: Path)
    requires forall i :: 0 <= i < |pieces| ==> '/' !in pieces[i]
    ensures p == PiecesComponents(pieces, first)
    ensures forall i :: 0 <= i < |p| ==> p[i].Normal? ==> p[i].name != "" && '/' !in p[i].name
    decreases |pieces|
  {
    if pieces == [] then []
    else PieceComponents(pieces[0], first) + PiecesOk(pieces[1..], false)
  }

  /** `Path::parent`: the path without its last component, unless it ends at the root. */
  function Parent(p: Path): (r: Option<Path>)
    ensures r.Some? ==> |r.value| + 1 == |p| && r.value == p[..|p| - 1]
    ensures r.None? <==> p == [] || p[|p| - 1] == RootDir
  {
    if p == [] || p[|p| - 1] == RootDir then None else Some(p[..|p| - 1])
  }

  /** `Path::file_name`: the last component when it is a normal name. */
  function FileName(p: Path): (r: Option<string>)
    ensures r.Some? <==> p != [] && p[|p| - 1].Normal?
    ensures r.Some? ==> p[|p| - 1] == Normal(r.value)
  {
    if p != [] && p[|p| - 1].Normal? then Some(p[|p| - 1].name) else None
  }

  /** The candidate before the traversal check: the canonical path itself, or else the
    * canonical parent joined with the original file name. */
  function Candidate(path: Path, canon: Path -> Option<Path>): Result<Path, AppError> {
    match canon(path)
    case Some(c) => Ok(c)
    case None =>
      match Parent(path)
      case None => Err(PathValidation("No parent directory"))
      case Some(parent) =>
        match FileName(path)
        case None => Err(PathValidation("No file name"))
        case Some(name) =>
          match canon(parent)
          case None => Err(PathValidation("Parent directory does not exist"))
          case Some(cp) => Ok(cp + [Normal(name)])
  }

  /** `validate_path`: the candidate, refused when any component is a parent reference. */
  function ValidatePath(raw: string, canon: Path -> Option<Path>): (r: Result<Path, AppError>)
    ensures r.Ok? ==> ParentDir !in r.value
    ensures r.Err? ==> r.error.PathValidation? || r.error == PathTraversal
  {
    match Candidate(Parse(raw), canon)
    case Err(e) => Err(e)
    case Ok(c) => if ParentDir in c then Err(PathTraversal) else Ok(c)
  }

  /** When the raw path canonicalises, the result is exactly the canonical path, or a
    * traversal error if that still holds a parent reference. */
  lemma DirectCanonical(raw: string, canon: Path -> Option<Path>)
    requires canon(Parse(raw)).Some?
    ensures var c := canon(Parse(raw)).value;
      ValidatePath(raw, canon) == if ParentDir in c then Err(PathTraversal) else Ok(c)
  {
  }

  /** Otherwise the result is the canonical parent joined with the original final name. */
  lemma ParentFallback(raw: string, canon: Path -> Option<Path>)
    requires canon(Parse(raw)).None?
    requires Parent(Parse(raw)).Some? && FileName(Parse(raw)).Some?
    requires canon(Parent(Parse(raw)).value).Some?
    ensures var c := canon(Parent(Parse(raw)).value).value + [Normal(FileName(Parse(raw)).value)];
      ValidatePath(raw, canon) == if ParentDir in c then Err(PathTraversal) else Ok(c)
  {
  }

  /** The three ways the fallback fails, each a `PathValidation` error. */
  lemma FallbackFailures(raw: string, canon: Path -> Option<Path>)
    requires canon(Parse(raw)).None?
    ensures Parent(Parse(raw)).None? ==> ValidatePath(raw, canon) == Err(PathValidation("No parent directory"))
    ensures Parent(Parse(raw)).Some? && FileName(Parse(raw)).None? ==>
      ValidatePath(raw, canon) == Err(PathValidation("No file name"))
    ensures Parent(Parse(raw)).Some? && FileName(Parse(raw)).Some? && canon(Parent(Parse(raw)).value).None? ==>
      ValidatePath(raw, canon) == Err(PathValidation("Parent directory does not exist"))
  {
  }

  /** A new name inside an existing directory validates to that directory plus the name
    * (the canonical directory holds no parent reference, as real canonical paths do not). */
  lemma NewFileInExistingDir(dir: string, name: string, canon: Path -> Option<Path>)
    requires dir != [] && dir[0] == '/'
    requires name != "" && name != "." && name != ".." && '/' !in name
    requires canon(Parse(dir + "/" + name)).None?
    requires canon(Parse(dir)).Some? && ParentDir !in canon(Parse(dir)).value
    ensures ValidatePath(dir + "/" + name, canon) == Ok(canon(Parse(dir)).value + [Normal(name)])
  {
    ParseAppend(dir, name);
    var p := Parse(dir + "/" + name);
    assert Parent(p) == Some(Parse(dir));
  }

  /** Appending "/name" to an absolute path appends one normal component. */
  lemma ParseAppend(dir: string, name: string)
    requires dir != [] && dir[0] == '/'
    requires name != "" && name != "." && name != ".." && '/' !in name
    ensures Parse(dir + "/" + name) == Parse(dir) + [Normal(name)]
  {
    var s := dir + "/" + name;
    assert s == dir + ['/'] + name;
    SplitAppend(dir, '/', name);
    var pieces := Split(dir, '/');
    assert Split(s, '/')[1..] == pieces[1..] + [name];
    PiecesSnoc(pieces[1..], name);
  }

  lemma {:induction false} PiecesSnoc(pieces: seq<string>, last: string)
    ensures PiecesComponents(pieces + [last], false) == PiecesComponents(pieces, false) + PieceComponents(last, false)
    decreases |pieces|
  {
    if pieces == [] {
      assert [last][1..] == [];
    } else {
      PiecesSnoc(pieces[1..], last);
      assert (pieces + [last])[1..] == pieces[1..] + [last];
    }
  }

  /** A path under a directory that does not exist fails with a validation error. */
  lemma NonexistentParentFails(raw: string, canon: Path -> Option<Path>)
    requires canon(Parse(raw)).None?
    requires Parent(Parse(raw)).Some? && canon(Parent(Parse(raw)).value).None?
    ensures ValidatePath(raw, canon).Err? && ValidatePath(raw, canon).error.PathValidation?
  {
  }
}
