/**
 * `src/utils/directoryLoader.ts`: the raw entries the `list_directory` command returns,
 * turned into file-tree nodes for the sidebar.
 */
module DirectoryLoader {
  import opened Wrappers

  datatype RawFileEntry = RawFileEntry(name: string, path: string, isDir: bool, size: nat, modified: nat)

  /** A sidebar tree node; `children` is absent (`undefined`) for files. */
  datatype FileTreeNode = FileTreeNode(id: string, name: string, path: string, isDir: bool, children: ChildList)

  /** The optional `children` array of a node. */
  datatype ChildList = Undefined | List(nodes: seq<FileTreeNode>)

  /** One entry as a node: the path is also the id, and only a directory gets a (still
    * empty) child list. */
  function ToTreeNode(e: RawFileEntry): (n: FileTreeNode)
    ensures n.id == e.path && n.path == e.path && n.name == e.name && n.isDir == e.isDir
    ensures n.children == (if e.isDir then List([]) else Undefined)
  {
    FileTreeNode(e.path, e.name, e.path, e.isDir, if e.isDir then List([]) else Undefined)
  }

  /** `toTreeNodes`: the entries one for one, in order. */
  function ToTreeNodes(entries: seq<RawFileEntry>): (r: seq<FileTreeNode>)
    ensures |r| == |entries|
    ensures forall i :: 0 <= i < |entries| ==> r[i] == ToTreeNode(entries[i])
  {
    if entries == [] then [] else [ToTreeNode(entries[0])] + ToTreeNodes(entries[1..])
  }

  /** Node ids are the entry paths, so distinct paths give distinct ids. */
  lemma DistinctPathsDistinctIds(entries: seq<RawFileEntry>)
    requires forall i, j :: 0 <= i < j < |entries| ==> entries[i].path != entries[j].path
    ensures forall i, j :: 0 <= i < j < |entries| ==> ToTreeNodes(entries)[i].id != ToTreeNodes(entries)[j].id
  {
  }

  /** `loadDirectoryEntries`: nothing outside the desktop shell; otherwise the command's
    * listing (or its error, which the returned promise rejects with) mapped to nodes. */
  function LoadDirectoryEntries(inTauri: bool, listing: Result<seq<RawFileEntry>, string>): (r: Result<seq<FileTreeNode>, string>)
    ensures !inTauri ==> r == Ok([])
    ensures inTauri && listing.Ok? ==> r.Ok? && |r.value| == |listing.value|
    ensures inTauri && listing.Ok? ==> forall i :: 0 <= i < |r.value| ==>
      r.value[i].id == listing.value[i].path && r.value[i].path == listing.value[i].path
      && r.value[i].name == listing.value[i].name && r.value[i].isDir == listing.value[i].isDir
      && r.value[i].children == (if listing.value[i].isDir then List([]) else Undefined)
    ensures inTauri && listing.Err? ==> r == Err(listing.error)
  {
    if !inTauri then Ok([])
    else
      match listing
      case Ok(entries) => Ok(ToTreeNodes(entries))
      case Err(e) => Err(e)
  }
}
