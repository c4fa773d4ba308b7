/**
 * Choosing the name of a duplicated file: `name (copy)ext`, then `name (copy 2)ext` up to
 * `name (copy 100)ext`, the first one not already present among the names the directory
 * listing returned.
 */
module FileCopy {
  import opened Wrappers
  import opened Strings
  import opened ImagePath

  /** `FILE_POLICY.maxCopyAttempts`. */
  const MAX_COPY_ATTEMPTS: nat := 100

  /** One entry of the `list_directory` answer. */
  datatype DirectoryEntry = DirectoryEntry(name: string, isDirectory: bool, size: nat, modified: nat)

  datatype CopyPathResult = CopyPathResult(copyName: string, copyPath: string)

  /** The file name: the text after the last separator of either kind. */
  function FileName(filePath: string): (r: string)
    ensures EndsWith(filePath, r)
    ensures forall i :: 0 <= i < |r| ==> !IsSep(r[i])
  {
    var lastSlash := LastSeparator(filePath);
    if lastSlash == -1 then filePath else filePath[lastSlash + 1..]
  }

  /** Base name and extension: the extension runs from the last dot, unless that dot is the
    * first character (a hidden file such as `.env` has no extension). */
  function SplitExtension(fullName: string): (r: (string, string))
    ensures r.0 + r.1 == fullName
    ensures r.1 != [] ==> r.1[0] == '.' && '.' !in r.1[1..] && r.0 != []
    ensures r.1 == [] ==> '.' !in fullName || LastIndexOf(fullName, '.') == 0
  {
    var dotIdx := LastIndexOf(fullName, '.');
    if dotIdx > 0 then (fullName[..dotIdx], fullName[dotIdx..])
    else (fullName, "")
  }

  /** The `i`-th name tried: attempt 1 is `name (copy)ext`, attempt `i >= 2` is
    * `name (copy i)ext`. */
  function Candidate(name: string, ext: string, i: nat): string {
    if i <= 1 then name + " (copy)" + ext
    else name + " (copy " + NatToString(i) + ")" + ext
  }

  /** The first attempt from `i` on whose name is free, if any up to the maximum. */
  function FirstFree(name: string, ext: string, existing: set<string>, i: nat): (r: Option<nat>)
    requires i >= 1
    ensures r.Some? ==> i <= r.value <= MAX_COPY_ATTEMPTS && Candidate(name, ext, r.value) !in existing
    ensures r.Some? ==> forall j :: i <= j < r.value ==> Candidate(name, ext, j) in existing
    ensures r.None? ==> forall j :: i <= j <= MAX_COPY_ATTEMPTS ==> Candidate(name, ext, j) in existing
    decreases MAX_COPY_ATTEMPTS + 1 - i
  {
    if i > MAX_COPY_ATTEMPTS then None
    else if Candidate(name, ext, i) !in existing then Some(i)
    else FirstFree(name, ext, existing, i + 1)
  }

  function Names(entries: seq<DirectoryEntry>): set<string> {
    set e | e in entries :: e.name
  }

  /** What `findAvailableCopyPath` resolves to, given the listing of the file's directory
    * (`None` when listing failed). */
  function CopyPathSpec(filePath: string, listing: Option<seq<DirectoryEntry>>): Option<CopyPathResult> {
    var dir := GetDirectoryPath(filePath);
    var (name, ext) := SplitExtension(FileName(filePath));
    if listing.None? then None
    else
      match FirstFree(name, ext, Names(listing.value), 1)
      case None => None
      case Some(i) => Some(CopyPathResult(Candidate(name, ext, i), JoinPath(dir, Candidate(name, ext, i))))
  }

  /** `findAvailableCopyPath`: the listing of the file's directory is an input. */
  method FindAvailableCopyPath(filePath: string, listing: Option<seq<DirectoryEntry>>) returns (r: Option<CopyPathResult>)
    ensures r == CopyPathSpec(filePath, listing)
  {
    var dir := GetDirectoryPath(filePath);
    var fullName := FileName(filePath);
    var (name, ext) := SplitExtension(fullName);
    if listing.None? {
      return None;
    }
    var existingNames := Names(listing.value);
    var copyName := name + " (copy)" + ext;
    if copyName !in existingNames {
      return Some(CopyPathResult(copyName, JoinPath(dir, copyName)));
    }
    var i := 2;
    while i <= MAX_COPY_ATTEMPTS
      invariant 2 <= i <= MAX_COPY_ATTEMPTS + 1
      invariant FirstFree(name, ext, existingNames, 1) == FirstFree(name, ext, existingNames, i)
    {
      copyName := name + " (copy " + NatToString(i) + ")" + ext;
      if copyName !in existingNames {
        return Some(CopyPathResult(copyName, JoinPath(dir, copyName)));
      }
      i := i + 1;
    }
    return None;
  }

  /** A returned name is not taken in the directory, and the path is that name joined to
    * the file's directory. */
  lemma CopyNameFree(filePath: string, entries: seq<DirectoryEntry>)
    requires CopyPathSpec(filePath, Some(entries)).Some?
    ensures var r := CopyPathSpec(filePath, Some(entries)).value;
      (forall e :: e in entries ==> e.name != r.copyName)
      && r.copyPath == JoinPath(GetDirectoryPath(filePath), r.copyName)
  {
    var r := CopyPathSpec(filePath, Some(entries)).value;
    forall e | e in entries ensures e.name != r.copyName {
      assert e.name in Names(entries);
    }
  }

  /** No result means the listing failed or all hundred names are taken. */
  lemma NoCopyName(filePath: string, listing: Option<seq<DirectoryEntry>>)
    requires CopyPathSpec(filePath, listing).None?
    ensures listing.Some? ==>
      var (name, ext) := SplitExtension(FileName(filePath));
      forall j :: 1 <= j <= MAX_COPY_ATTEMPTS ==> exists e :: e in listing.value && e.name == Candidate(name, ext, j)
  {
    if listing.Some? {
      var (name, ext) := SplitExtension(FileName(filePath));
      forall j | 1 <= j <= MAX_COPY_ATTEMPTS
        ensures exists e :: e in listing.value && e.name == Candidate(name, ext, j)
      {
        assert Candidate(name, ext, j) in Names(listing.value);
      }
    }
  }

  /** The hundred attempts are a hundred different names, so the search really tries
    * that many. */
  lemma CandidatesDistinct(name: string, ext: string, i: nat, j: nat)
    requires 1 <= i < j
    ensures Candidate(name, ext, i) != Candidate(name, ext, j)
  {
    var a := Candidate(name, ext, i);
    var b := Candidate(name, ext, j);
    var k := |name| + 6;
    assert b[k] == ' ' by { assert b == name + " (copy " + (NatToString(j) + ")" + ext); }
    if i == 1 {
      assert a[k] == ')' by { assert a == name + " (copy)" + ext; }
    } else if a == b {
      var di := NatToString(i);
      var dj := NatToString(j);
      assert a == (name + " (copy ") + di + (")" + ext);
      assert b == (name + " (copy ") + dj + (")" + ext);
      assert |di| == |dj|;
      assert di == a[k + 1..k + 1 + |di|];
      assert dj == b[k + 1..k + 1 + |dj|];
      NatToStringInjective(i, j);
    }
  }
}
