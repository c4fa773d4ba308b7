# BoltDown core, modelled in Dafny

BoltDown is a desktop Markdown editor: a Tauri shell whose Rust backend reads, writes and
lists files, and a TypeScript front end built on CodeMirror (the editor with its live
"WYSIWYG" preview decorations), markdown-it (the rendered preview) and a handful of Zustand
stores. This project models the logic of that core and proves what each piece promises.

One module per core file:

| module | file | what it covers |
|---|---|---|
| `PathValidation` | src-tauri/src/utils/path.rs | `validate_path`: canonicalise directly, or canonicalise the parent and re-attach the file name; reject any result holding a `..` component |
| `FileCommands` | src-tauri/src/commands/file.rs | `read_file`, `write_file` (temporary file, then rename), `delete_file`, `rename_file`, `copy_file`, `write_binary_file`, over a filesystem held as a map |
| `DirectoryListing` | src-tauri/src/commands/directory.rs | `list_directory`: skip hidden and build directories, directories first, then by lower-cased name |
| `AppErrors` | src-tauri/src/error.rs | the error variants the commands return |
| `TableModel` | tableModel.ts | GFM table cells with `\|` escapes, the alignment row, parse/serialise and every row, column and resize edit |
| `TableWidgetEditor` | TableWidget.ts | the older table widget's own parser and serialiser and its cell edit |
| `LruCacheModel` | src/utils/cache.ts | the LRU cache over an insertion-ordered map |
| `TabStore`, `SidebarStore`, `FindReplaceStore`, `SettingsStore`, `EditorStore` | src/stores/*.ts | the stores' state and actions |
| `InlineHtml` | inlineHtmlDecorations.ts | `<u>`, `<sup>`, `<sub>` markers, their pairing with a stack and their decorations |
| `RangeUtils` | wysiwyg/utils.ts | the forward-walking range checker and the selection and cursor-line tests |
| `BlockMath` | BlockMathWidget.ts | `$$` display blocks and inline `$…$` spans in the live preview |
| `CodeBlockNav` | codeBlockArrowNavigationModel.ts | arrow-key and select-all navigation around fenced code blocks |
| `CodeBlockWidget` | CodeBlockWidget.ts | Prism token colouring and the language popover |
| `TaskCheckbox` | TaskCheckboxWidget.ts | the `[ ]`/`[x]` marker and its click edit |
| `FormatCommands` | formatCommands.ts | inline marker wrapping and unwrapping, line prefixes, code and math templates |
| `EditorUtils`, `OrderedLists` | editorUtils.ts | image file names and paths; indenting, outdenting and renumbering ordered lists |
| `ImagePath` | src/utils/imagePath.ts | path-string helpers and link classification |
| `FileCopy` | src/utils/fileCopy.ts | the name of a duplicated file |
| `DirectoryLoader` | src/utils/directoryLoader.ts | listing entries as file-tree nodes |
| `TocPlugin` | src/utils/tocPlugin.ts | slugs, the `[TOC]` block rule and the TOC collected from the headings |
| `HtmlEscape` | tocPlugin.ts and markdownConfig.ts | `escapeHtml` and its inverse |
| `MarkdownConfig` | src/utils/markdownConfig.ts | the `$…$` and `$$` parser rules and the `highlight` hook |
| `ScrollSync` | src/hooks/useSplitScrollSync.ts | scroll anchors and the interpolation between editor and preview |
| `Focus` | focus.ts | focus-mode line decorations and when they are rebuilt |

Five further modules model the environment these files run in rather than BoltDown's own
code, so they have no rows in the table below:
- `Wrappers`: `Option` and `Result`.
- `Strings`: the JavaScript string built-ins the code calls (`trim`, `split`, `join`,
  `lastIndexOf`, `toLowerCase`, `padEnd`) and decimal rendering.
- `TextDoc`: CodeMirror's document, meaning line numbers, line bounds and the
  application and mapping of change sets.
- `EditorView`: the view's document and selection, and `dispatch`.
- `MarkdownState`: the parts of markdown-it's parser state the plugins touch.

Code that works on values (the string helpers, the table model, the slug rules) is written
as functions with lemmas. Code that updates fields or loops is written as classes and
methods whose `ensures` tie the new state to those functions:
- the Rust file commands;
- the stores and the LRU cache;
- the popover;
- the widgets' click handlers;
- the markdown-it rules;
- the decoration builders.

Nondeterministic inputs are parameters: the operating system's `canonicalize`, the order
in which a directory is enumerated, `Date.now()`, `crypto.randomUUID()`, the syntax tree's
nodes, Prism's token tree and the DOM's measurements.

Where the repository's tests disagree with its code, the model follows the code:
- `codeBlockArrowNavigationModel.test.ts:54-62` expects a cursor move where
  `codeBlockArrowNavigationModel.ts:128-139` opens the language editor, and the model opens it;
- `mathDecorations.test.ts:43-62` expects only the inline math span under the cursor to
  be shown as source, while `BlockMathWidget.ts:111-114` also leaves every other span on
  the cursor's line as source, and so does the model.

## Model

| member | source | states |
|---|---|---|
| PathValidation.Parse | src-tauri/src/utils/path.rs:11 | every normal component it yields is a non-empty name without '/' |
| PathValidation.Parent | src-tauri/src/utils/path.rs:16-18 | the parent is the path minus its last component, and there is none exactly for the empty path or one ending at the root |
| PathValidation.FileName | src-tauri/src/utils/path.rs:19-21 | a file name exists exactly when the last component is a normal name, and it is that name |
| PathValidation.ValidatePath | src-tauri/src/utils/path.rs:10-36 | an accepted path holds no parent-directory component; every failure is a path-validation or path-traversal error |
| PathValidation.DirectCanonical | src-tauri/src/utils/path.rs:15-35 | when the path canonicalises, the result is that canonical path, or a traversal error if it still holds `..` |
| PathValidation.ParentFallback | src-tauri/src/utils/path.rs:15-28 | otherwise the result is the canonical parent joined with the original file name, subject to the same `..` check |
| PathValidation.FallbackFailures | src-tauri/src/utils/path.rs:16-27 | no parent, no file name and a parent that does not canonicalise each give their own validation error |
| PathValidation.NewFileInExistingDir | src-tauri/src/utils/path.rs:54-58 | a new name in an existing directory validates to the canonical directory plus that name |
| PathValidation.ParseAppend | src-tauri/src/utils/path.rs:11 | appending "/name" to an absolute path appends exactly one normal component |
| PathValidation.NonexistentParentFails | src-tauri/src/utils/path.rs:48-52 | a path whose parent does not exist is refused with a validation error |
| FileCommands.TmpPath | src-tauri/src/commands/file.rs:29-33 | the temporary path differs from the target and, for a named file, lies in the same directory |
| FileCommands.WriteStep | src-tauri/src/commands/file.rs:34-69 | a successful `fs::write` leaves exactly that path mapped to a file holding the data |
| FileCommands.Moved | src-tauri/src/commands/file.rs:44 | the entries under the old path, each at the same place under the new path with the same node, and no other key |
| FileCommands.MoveTree | src-tauri/src/commands/file.rs:44 | every entry under the old path reappears at the same place under the new path with the same node; the keys afterwards are exactly those moved and those kept (outside the old path and not the new path itself), and every entry outside both paths keeps its node |
| FileCommands.FileSystem.ReadFile | src-tauri/src/commands/file.rs:9-23 | the result is the read specification of the current disk: validation, size check, then UTF-8 read |
| FileCommands.FileSystem.WriteFile | src-tauri/src/commands/file.rs:27-37 | result and new disk are the specification's: validate, write the `.tmp` sibling, rename it onto the target |
| FileCommands.FileSystem.RenameFile | src-tauri/src/commands/file.rs:41-46 | result and new disk are the specification's: validate both paths, then rename |
| FileCommands.FileSystem.DeleteFile | src-tauri/src/commands/file.rs:50-54 | result and new disk are the specification's: validate, then remove the file |
| FileCommands.FileSystem.CopyFile | src-tauri/src/commands/file.rs:58-63 | result and new disk are the specification's: validate both paths, then copy |
| FileCommands.FileSystem.WriteBinaryFile | src-tauri/src/commands/file.rs:67-71 | result and new disk are the specification's: validate, then write the bytes directly |
| FileCommands.ValidationFailureChangesNothing | src-tauri/src/commands/file.rs:10-68 | any command whose path argument fails validation returns that error and leaves the disk unchanged |
| FileCommands.ReadTooLarge | src-tauri/src/commands/file.rs:12-19 | a file above 50 MiB is refused with its size and the limit 52428800 |
| FileCommands.ReadWithinLimit | src-tauri/src/commands/file.rs:21-22 | a file within the limit reads successfully exactly when it is valid UTF-8, and then yields its bytes |
| FileCommands.WriteFileSuccess | src-tauri/src/commands/file.rs:27-37 | after a successful write the target holds the content, no `.tmp` entry remains, and every other entry is unchanged |
| FileCommands.TempWriteFailure | src-tauri/src/commands/file.rs:34 | when the temporary file cannot be created the error is returned and nothing changes |
| FileCommands.WriteOntoDirectory | src-tauri/src/commands/file.rs:34-35 | writing onto a directory fails at the rename and leaves the `.tmp` file behind |
| FileCommands.WriteThenRead | src-tauri/src/commands/file.rs:9-37 | reading back a successful write within the size limit gives the written text |
| FileCommands.RenameMovesFile | src-tauri/src/commands/file.rs:44 | renaming a file moves its node from the old path to the new one and changes nothing else |
| FileCommands.RenameMovesTree | src-tauri/src/commands/file.rs:44 | renaming a directory moves every entry under it to the same place under the new path, and an old entry not under the new path is gone; entries outside both paths stay; every entry afterwards is either an old entry outside the old path or a moved one |
| FileCommands.DeleteRemoves | src-tauri/src/commands/file.rs:52 | a successful delete removed exactly one existing regular file |
| FileCommands.CopyMakesEqual | src-tauri/src/commands/file.rs:61 | the destination becomes a file with the bytes of the file copied from, which is untouched; a copy onto itself empties the file |
| FileCommands.WriteBinaryDirect | src-tauri/src/commands/file.rs:67-71 | a binary write puts the data at the target directly, with no temporary entry |
| DirectoryListing.ModifiedSecs | src-tauri/src/commands/directory.rs:50-55 | no time or a time before the epoch gives 0; otherwise the whole seconds, truncating the nanoseconds |
| DirectoryListing.MakeEntry | src-tauri/src/commands/directory.rs:57-63 | the entry carries the name, the displayed child path, the directory flag, the size and the modification seconds |
| DirectoryListing.Kept | src-tauri/src/commands/directory.rs:44-46 | every kept name is an enumerated name that is neither hidden nor in the skip set |
| DirectoryListing.CollectNames | src-tauri/src/commands/directory.rs:41-64 | the collected entries carry exactly the kept names in enumeration order, each with its child's metadata |
| DirectoryListing.CollectErrSticks | src-tauri/src/commands/directory.rs:41-48 | once reading the metadata of an enumerated child fails, the whole listing fails with that error |
| DirectoryListing.LexLeTotal | src-tauri/src/commands/directory.rs:69 | the name order is total |
| DirectoryListing.LexLeTrans | src-tauri/src/commands/directory.rs:69 | the name order is transitive |
| DirectoryListing.LexLeAntisym | src-tauri/src/commands/directory.rs:69 | the name order is antisymmetric |
| DirectoryListing.LeTotal | src-tauri/src/commands/directory.rs:66-70 | the comparator is total |
| DirectoryListing.LeTrans | src-tauri/src/commands/directory.rs:66-70 | the comparator is transitive |
| DirectoryListing.Insert | src-tauri/src/commands/directory.rs:66-70 | insertion adds the one entry and keeps all others (as a multiset) |
| DirectoryListing.SortEntries | src-tauri/src/commands/directory.rs:66-70 | sorting is a permutation of the entries |
| DirectoryListing.SortEntriesSorted | src-tauri/src/commands/directory.rs:66-70 | the sorted listing has directories first, then ascending lower-cased names |
| DirectoryListing.SortEntriesStable | src-tauri/src/commands/directory.rs:66-70 | the sort is stable: entries with equal keys keep their enumeration order |
| DirectoryListing.SortEntriesNames | src-tauri/src/commands/directory.rs:66-70 | sorting keeps the multiset of names |
| DirectoryListing.ListDirectory | src-tauri/src/commands/directory.rs:29-73 | the result is the listing specification: validate, require a directory, collect the kept children, sort |
| DirectoryListing.NotADirectoryKeepsInput | src-tauri/src/commands/directory.rs:34-36 | a path that is not a directory is refused with the caller's original string |
| DirectoryListing.ListingContents | src-tauri/src/commands/directory.rs:29-73 | a successful listing holds exactly the kept names with each child's metadata, sorted and stable |
| DirectoryListing.CollectedEntry | src-tauri/src/commands/directory.rs:42-63 | every collected entry is an unskipped child carrying that child's metadata |
| DirectoryListing.ListingHasEveryChild | src-tauri/src/commands/directory.rs:41-46 | when the enumeration yields each child of the directory once and nothing else, every child that is neither hidden nor in the skip set appears exactly once in the listing, and no other name appears |
| DirectoryListing.KeptOnce | src-tauri/src/commands/directory.rs:41-46 | when the enumeration names each child once, every kept child appears exactly once |
| DirectoryLoader.ToTreeNode | src/utils/directoryLoader.ts:13-19 | the node's id and path are the entry path, and only a directory gets an (empty) child list |
| DirectoryLoader.ToTreeNodes | src/utils/directoryLoader.ts:12-20 | one node per entry, in order |
| DirectoryLoader.DistinctPathsDistinctIds | src/utils/directoryLoader.ts:14 | distinct entry paths give distinct node ids |
| DirectoryLoader.LoadDirectoryEntries | src/utils/directoryLoader.ts:22-26 | outside the desktop shell the result is empty; otherwise the command's error, or one node per listed entry, node i carrying entry i's path as both id and path, its name and directory flag, and an empty child list exactly when it is a directory (no child list otherwise) |
| TableModel.TrailingBackslashes | src/components/editor/extensions/wysiwyg/tableModel.ts:54-57 | the length of the run of backslashes ending the text |
| TableModel.ContextFree | src/components/editor/extensions/wysiwyg/tableModel.ts:52-60 | the backslash run before an index depends only on the text after an earlier non-backslash |
| TableModel.IsEscapedScan | src/components/editor/extensions/wysiwyg/tableModel.ts:52-60 | the backward scan answers whether an odd number of backslashes precede the index |
| TableModel.EscapeAppend | src/components/editor/extensions/wysiwyg/tableModel.ts:86-103 | escaping distributes over concatenation |
| TableModel.EscapeCell | src/components/editor/extensions/wysiwyg/tableModel.ts:86-103 | the loop produces the escaped text: each backslash and pipe gets a backslash before it |
| TableModel.DecodeEscapedCell | src/components/editor/extensions/wysiwyg/tableModel.ts:67-84 | the loop produces the decoded text: a backslash before a backslash or pipe is dropped |
| TableModel.DecodeEscape | src/components/editor/extensions/wysiwyg/tableModel.ts:67-103 | decoding undoes escaping, for every string |
| TableModel.EscapeGuardsPipes | src/components/editor/extensions/wysiwyg/tableModel.ts:39-103 | in an escaped cell every pipe is preceded by an odd backslash run, and the cell ends in an even one |
| TableModel.JoinSplitByUnescapedPipe | src/components/editor/extensions/wysiwyg/tableModel.ts:33-50 | joining the pieces with '|' gives back the text |
| TableModel.SplitPipes | src/components/editor/extensions/wysiwyg/tableModel.ts:33-50 | the loop produces exactly the pieces between unescaped pipes |
| TableModel.DecodeCells | src/components/editor/extensions/wysiwyg/tableModel.ts:30 | each cell is its piece trimmed and decoded |
| TableModel.ParseFormatRow | src/components/editor/extensions/wysiwyg/tableModel.ts:14-31 | parsing a formatted row of escaped cells gives the cells back |
| TableModel.ParseBuildAlignment | src/components/editor/extensions/wysiwyg/tableModel.ts:105-119 | parsing a built alignment token gives the alignment back |
| TableModel.NormalizeMatchesSource | src/components/editor/extensions/wysiwyg/tableModel.ts:121-123 | the one-pass normaliser equals collapsing whitespace runs to one space, then trimming |
| TableModel.NormalizeCellValueShape | src/components/editor/extensions/wysiwyg/tableModel.ts:121-123 | a normalised value is a stored cell value: no whitespace at the ends, no newline, only single spaces |
| TableModel.NonBlank | src/components/editor/extensions/wysiwyg/tableModel.ts:143 | the kept lines are lines of the input with non-blank trimmed text |
| TableModel.PadCells | src/components/editor/extensions/wysiwyg/tableModel.ts:157-162 | exactly the column count of cells, '' where the row is short |
| TableModel.MaxRowLength | src/components/editor/extensions/wysiwyg/tableModel.ts:150-155 | the longest row's length |
| TableModel.BuildTable | src/components/editor/extensions/wysiwyg/tableModel.ts:150-169 | the table is rectangular, keeps every parsed cell as a prefix of its row, and fills missing alignments with left |
| TableModel.ParseTable | src/components/editor/extensions/wysiwyg/tableModel.ts:142-170 | no table exactly when fewer than two non-blank lines; otherwise a rectangular table with one body row per remaining line |
| TableModel.ParseTableKeepsCells | src/components/editor/extensions/wysiwyg/tableModel.ts:146-163 | the headers and every body row start with their parsed cells |
| TableModel.ColumnWidthsCover | src/components/editor/extensions/wysiwyg/tableModel.ts:177-180 | each column is at least 1 wide and as wide as every escaped cell and token in it |
| TableModel.SerializeLines | src/components/editor/extensions/wysiwyg/tableModel.ts:187-190 | one line per body row, plus the header and alignment lines |
| TableModel.ParseSerialize | src/components/editor/extensions/wysiwyg/tableModel.ts:142-193 | serialising a canonical table and parsing the text gives the same table back |
| TableModel.ClampIndex | src/components/editor/extensions/wysiwyg/tableModel.ts:133-135 | a clamped index lies in `[0, hi]` and is the index itself when already there |
| TableModel.SetCellTextEffect | src/components/editor/extensions/wysiwyg/tableModel.ts:195-211 | an addressable cell gets the normalised value and every other cell is kept; an out-of-range address changes nothing |
| TableModel.SetCellTextCanonical | src/components/editor/extensions/wysiwyg/tableModel.ts:195-211 | setting a cell keeps a canonical table canonical |
| TableModel.AddRowAbove | src/components/editor/extensions/wysiwyg/tableModel.ts:213-219 | an empty row is inserted at the clamped index, everything else kept |
| TableModel.AddRowBelow | src/components/editor/extensions/wysiwyg/tableModel.ts:221-227 | adding below an index is adding above the next one |
| TableModel.DeleteRow | src/components/editor/extensions/wysiwyg/tableModel.ts:229-236 | a table without body rows is kept; otherwise the row at the clamped index is removed |
| TableModel.DeleteAddedRow | src/components/editor/extensions/wysiwyg/tableModel.ts:213-236 | deleting the row just added gives the table back |
| TableModel.RowEditsCanonical | src/components/editor/extensions/wysiwyg/tableModel.ts:213-236 | row edits keep a canonical table canonical |
| TableModel.AddColumnEffect | src/components/editor/extensions/wysiwyg/tableModel.ts:238-251 | '', left and '' are inserted at the same clamped index of every row, everything else kept |
| TableModel.ColumnEditsCanonical | src/components/editor/extensions/wysiwyg/tableModel.ts:238-296 | column edits keep a canonical table canonical, and deleting never removes the last column |
| TableModel.DeleteAddedColumn | src/components/editor/extensions/wysiwyg/tableModel.ts:238-283 | deleting the column just added gives the table back |
| TableModel.ClampTarget | src/components/editor/extensions/wysiwyg/tableModel.ts:137-140 | a target of at least 1 is floored; anything smaller becomes 1 |
| TableModel.ResizeTableEffect | src/components/editor/extensions/wysiwyg/tableModel.ts:298-327 | the table has exactly the target sizes, keeps every cell inside both sizes and fills the rest with '' and left |
| TableModel.ResizeTableCanonical | src/components/editor/extensions/wysiwyg/tableModel.ts:298-327 | resizing keeps a canonical table canonical |
| TableWidgetEditor.StripPipes | src/components/editor/extensions/wysiwyg/TableWidget.ts:19-20 | one leading and one trailing pipe are dropped when present; a line without either is kept |
| TableWidgetEditor.StripFramed | src/components/editor/extensions/wysiwyg/TableWidget.ts:19-20 | dropping the framing pipes of `\|j\|` leaves `j` |
| TableWidgetEditor.WidgetCells | src/components/editor/extensions/wysiwyg/TableWidget.ts:17-23 | one trimmed cell per piece of the pipe split, at least one |
| TableWidgetEditor.WidgetCellsShape | src/components/editor/extensions/wysiwyg/TableWidget.ts:17-23 | every parsed cell of a one-line text is stored-form and pipe-free |
| TableWidgetEditor.WidgetParse | src/components/editor/extensions/wysiwyg/TableWidget.ts:45-73 | no table exactly when fewer than two non-blank lines; otherwise a rectangular table with one body row per remaining line |
| TableWidgetEditor.WidgetParseShape | src/components/editor/extensions/wysiwyg/TableWidget.ts:45-73 | every table the widget parses holds only stored-form, pipe-free cells |
| TableWidgetEditor.WidgetWidthsCover | src/components/editor/extensions/wysiwyg/TableWidget.ts:75-80 | each column is at least 1 wide and as wide as its header, token and cells |
| TableWidgetEditor.WidgetLines | src/components/editor/extensions/wysiwyg/TableWidget.ts:82-92 | one line per body row, plus the header and alignment lines |
| TableWidgetEditor.WidgetRowRoundTrip | src/components/editor/extensions/wysiwyg/TableWidget.ts:17-85 | a formatted row of stored-form, pipe-free cells parses back to those cells |
| TableWidgetEditor.WidgetParseSerialize | src/components/editor/extensions/wysiwyg/TableWidget.ts:45-92 | serialising a table of stored-form, pipe-free cells and parsing the text gives the table back |
| TableWidgetEditor.WidgetLinesParse | src/components/editor/extensions/wysiwyg/TableWidget.ts:45-92 | every line the widget writes parses back to the row it was written from |
| TableWidgetEditor.EditedModel | src/components/editor/extensions/wysiwyg/TableWidget.ts:108-124 | an edit happens exactly when the cell exists and differs from the normalised value, and then changes only that cell |
| TableWidgetEditor.EditedHeader | src/components/editor/extensions/wysiwyg/TableWidget.ts:110-115 | a changed header cell is replaced in the header row |
| TableWidgetEditor.EditedBody | src/components/editor/extensions/wysiwyg/TableWidget.ts:116-124 | a changed body cell is replaced in its row |
| TableWidgetEditor.InsertFor | src/components/editor/extensions/wysiwyg/TableWidget.ts:126-136 | a text is inserted exactly when there is an edit, the range lies in the document and the new text differs from the old |
| TableWidgetEditor.UpdateCellInsert | src/components/editor/extensions/wysiwyg/TableWidget.ts:104-145 | an insertion lies within the document and differs from the text it replaces |
| TableWidgetEditor.EditReparses | src/components/editor/extensions/wysiwyg/TableWidget.ts:104-145 | the serialised edited table parses back to the edited table |
| TableWidgetEditor.UpdateCellReparses | src/components/editor/extensions/wysiwyg/TableWidget.ts:104-145 | the text `updateCell` inserts parses back to the old table with exactly the one cell changed |
| TableWidgetEditor.NormalizeKeepsOut | src/components/editor/extensions/wysiwyg/TableWidget.ts:41-43 | normalising adds no character other than ' ' |
| TableWidgetEditor.TableWidget.constructor | src/components/editor/extensions/wysiwyg/TableWidget.ts:96-102 | the widget holds the table text and range |
| TableWidgetEditor.TableWidget.IgnoreEvent | src/components/editor/extensions/wysiwyg/TableWidget.ts:248-250 | the widget handles every event itself |
| TableWidgetEditor.TableWidget.UpdateCell | src/components/editor/extensions/wysiwyg/TableWidget.ts:104-145 | the view's document and selection become those after inserting `UpdateCellInsert`, unchanged when there is none |
| TableWidgetEditor.TableWidget.ReplaceTable | src/components/editor/extensions/wysiwyg/TableWidget.ts:126-144 | the end of `updateCell`: replaces the range when it lies in the document and the text changes |
| TableWidgetEditor.EqReusesDom | src/components/editor/extensions/wysiwyg/TableWidget.ts:240-246 | when `eq` lets CodeMirror keep the old widget's DOM, a cell edit through it (`updateCell`) inserts exactly what the new widget would insert, and that text reparses to the new widget's table with the edited cell set to the normalised value |
| LruCacheModel.Lookup | src/utils/cache.ts:16 | a key has a value exactly when it is stored |
| LruCacheModel.Without | src/utils/cache.ts:19-31 | deleting removes the key and adds nothing |
| LruCacheModel.Capacity | src/utils/cache.ts:28 | the cache holds at least one entry, and exactly `maxSize` when that is positive |
| LruCacheModel.WithoutFacts | src/utils/cache.ts:19-31 | deleting keeps keys distinct, shrinks the map by one exactly when the key was present, and keeps every other lookup |
| LruCacheModel.SetKeepsBound | src/utils/cache.ts:24-34 | `set` keeps keys distinct and the size within the capacity |
| LruCacheModel.GetKeepsContents | src/utils/cache.ts:15-22 | `get` keeps the cache bounded and every key-value pair |
| LruCacheModel.GetMakesMostRecent | src/utils/cache.ts:18-20 | after `get` of a stored key that entry is last and the others keep their relative order |
| LruCacheModel.SetThenGet | src/utils/cache.ts:24-34 | after `set(k, v)`, looking up `k` gives `v` |
| LruCacheModel.OverwriteEvictsNothing | src/utils/cache.ts:26-27 | overwriting a stored key keeps the same keys and every other value |
| LruCacheModel.FullInsertEvictsOldest | src/utils/cache.ts:28-31 | a new key in a full cache evicts exactly the oldest entry and keeps every other one |
| LruCacheModel.LruCache.constructor | src/utils/cache.ts:10-13 | a new cache is empty and valid |
| LruCacheModel.LruCache.Get | src/utils/cache.ts:15-22 | returns the stored value, and the entries become those after a `get` |
| LruCacheModel.LruCache.Set | src/utils/cache.ts:24-34 | the entries become those after a `set`, keeping the bound |
| LruCacheModel.LruCache.Clear | src/utils/cache.ts:36-38 | the cache is empty |
| LruCacheModel.LruCache.Size | src/utils/cache.ts:40-42 | the size never exceeds a positive `maxSize`, and is zero exactly when no key is stored |
| TabStore.CreateTab | src/stores/tabStore.ts:5-13 | a new tab carries the given fields and the given id, and starts clean |
| TabStore.FindByPath | src/stores/tabStore.ts:36 | a found tab is in the list with that path; none found means no tab has it |
| TabStore.IndexOfId | src/stores/tabStore.ts:54 | the first index holding the id, or -1 exactly when no tab has it |
| TabStore.WithoutId | src/stores/tabStore.ts:55 | the remaining tabs are exactly the tabs without that id |
| TabStore.OnlyId | src/stores/tabStore.ts:66 | the kept tabs are exactly the tabs with that id |
| TabStore.SetContent | src/stores/tabStore.ts:73-77 | only tabs with the id get the new content; every other tab is unchanged |
| TabStore.SetSaved | src/stores/tabStore.ts:79-83 | only tabs with the id get the new saved content; every other tab is unchanged |
| TabStore.WithoutDistinct | src/stores/tabStore.ts:55 | with distinct ids, removing a tab's id removes exactly that position |
| TabStore.OpenExisting | src/stores/tabStore.ts:35-40 | re-opening an open path keeps the tabs and activates and returns that tab's id |
| TabStore.OpenNew | src/stores/tabStore.ts:42-44 | otherwise one clean tab with the fresh id is appended and activated |
| TabStore.OpenKeepsCoherent | src/stores/tabStore.ts:33-45 | with a fresh id, `openTab` keeps at least one tab, distinct ids and an existing active id |
| TabStore.CloseKeepsCoherent | src/stores/tabStore.ts:47-62 | from a coherent store `closeTab` never throws and keeps the store coherent |
| TabStore.CloseActiveActivatesNeighbour | src/stores/tabStore.ts:54-58 | closing the active tab activates its right-hand neighbour, or the left-hand one when it was last |
| TabStore.CloseActiveSpec | src/stores/tabStore.ts:54-58 | closing the active tab activates the remaining tab at `min(idx, remaining.length - 1)` |
| TabStore.CloseInactiveKeepsActive | src/stores/tabStore.ts:59-61 | closing an inactive tab keeps the active id and removes exactly that tab |
| TabStore.CloseOthersLeavesOne | src/stores/tabStore.ts:64-69 | `closeOtherTabs` of an existing tab leaves exactly that tab, active |
| TabStore.UpdateThenMarkClean | src/stores/tabStore.ts:73-83 | saving what was just typed makes that tab clean and keeps every other tab |
| TabStore.EditsKeepCoherent | src/stores/tabStore.ts:73-83 | editing and saving keep the store coherent |
| TabStore.TabStore.constructor | src/stores/tabStore.ts:15-31 | the store starts with one clean welcome tab, active |
| TabStore.TabStore.OpenTab | src/stores/tabStore.ts:33-45 | the new state and returned id are those of `openTab` |
| TabStore.TabStore.CloseTab | src/stores/tabStore.ts:47-62 | the new state is that of `closeTab`; where it throws nothing changes |
| TabStore.TabStore.CloseOtherTabs | src/stores/tabStore.ts:64-69 | the new state is that of `closeOtherTabs` |
| TabStore.TabStore.SetActiveTab | src/stores/tabStore.ts:71 | only the active id changes |
| TabStore.TabStore.UpdateContent | src/stores/tabStore.ts:73-77 | the tabs become `SetContent` of the old tabs; the active id is kept |
| TabStore.TabStore.MarkClean | src/stores/tabStore.ts:79-83 | the tabs become `SetSaved` of the old tabs; the active id is kept |
| SidebarStore.DigitRun | src/stores/sidebarStore.ts:23 | the longest prefix of decimal digits, followed by a non-digit or the end |
| SidebarStore.ParseNeedsDigit | src/stores/sidebarStore.ts:23-24 | `parseInt` finds a number only where the text holds a digit |
| SidebarStore.LoadWidth | src/stores/sidebarStore.ts:20-25 | nothing stored, or text without a digit, gives the default width 240 |
| SidebarStore.LoadSavedWidth | src/stores/sidebarStore.ts:20-44 | a width saved as `String(width)` loads back as that width |
| SidebarStore.LoadDigits | src/stores/sidebarStore.ts:20-25 | a stored run of digits loads as its decimal value |
| SidebarStore.ParseDigits | src/stores/sidebarStore.ts:23 | a non-empty run of digits parses as its decimal value |
| SidebarStore.UpdateNode | src/stores/sidebarStore.ts:32-36 | a node keeps its id, name, path and kind, and has a child list exactly when it had one or its id matches |
| SidebarStore.UpdateChildren | src/stores/sidebarStore.ts:27-37 | each top-level node is updated in place; the length is kept |
| SidebarStore.UpdateChildrenReaches | src/stores/sidebarStore.ts:27-37 | at any depth not below an earlier match, a node keeps its fields and a matching one gets exactly the new children |
| SidebarStore.UpdateNodeNoMatch | src/stores/sidebarStore.ts:32-36 | a node with no matching id below it is unchanged |
| SidebarStore.UpdateChildrenNoMatch | src/stores/sidebarStore.ts:27-37 | a tree with no matching id is unchanged |
| SidebarStore.UpdateNodeIdempotent | src/stores/sidebarStore.ts:32-36 | applying the node update twice equals applying it once |
| SidebarStore.UpdateChildrenIdempotent | src/stores/sidebarStore.ts:27-37 | applying `updateChildren` twice equals applying it once |
| SidebarStore.WithoutPath | src/stores/sidebarStore.ts:91 | the kept entries are exactly those with another path |
| SidebarStore.AddRecent | src/stores/sidebarStore.ts:90-95 | the new file is first, later entries are older ones with other paths, at most 20 in all |
| SidebarStore.AddRecentDistinct | src/stores/sidebarStore.ts:90-95 | distinct recent paths stay distinct |
| SidebarStore.AddRecentKeepsOrder | src/stores/sidebarStore.ts:91-92 | the entries after the first keep their earlier relative order |
| SidebarStore.ParentDir | src/stores/sidebarStore.ts:97 | the intended folder: the text before the last '/', or "" without one |
| SidebarStore.ParentDirAgrees | src/stores/sidebarStore.ts:97 | the slice as written agrees with the intended folder whenever the path holds a '/' |
| SidebarStore.ParentDirAsWrittenTruncates | src/stores/sidebarStore.ts:97 | for a bare "notes.md" the slice gives "notes.m" where the intended folder is "" |
| SidebarStore.LoadParentSettles | src/stores/sidebarStore.ts:96-110 | after a load the root is the file's folder, the sidebar is open iff it was or was asked to be, and a repeated load changes nothing |
| SidebarStore.LoadParentFolder | src/stores/sidebarStore.ts:97-101 | a path with a folder part makes that folder the root; a bare name of two or more characters becomes a root as written |
| SidebarStore.SidebarStore.constructor | src/stores/sidebarStore.ts:69-76 | closed, stored width, files tab, no root, empty tree, stored recent files |
| SidebarStore.SidebarStore.Toggle | src/stores/sidebarStore.ts:78 | only the open flag flips |
| SidebarStore.SidebarStore.SetOpen | src/stores/sidebarStore.ts:79 | only the open flag is set |
| SidebarStore.SidebarStore.SetWidth | src/stores/sidebarStore.ts:80-83 | only the width is set |
| SidebarStore.SidebarStore.SetResizing | src/stores/sidebarStore.ts:84 | only the resizing flag is set |
| SidebarStore.SidebarStore.SetActiveTab | src/stores/sidebarStore.ts:85 | only the active panel is set |
| SidebarStore.SidebarStore.SetRootPath | src/stores/sidebarStore.ts:86 | only the root is set |
| SidebarStore.SidebarStore.SetTreeData | src/stores/sidebarStore.ts:87 | only the tree is set |
| SidebarStore.SidebarStore.UpdateNodeChildren | src/stores/sidebarStore.ts:88-89 | the tree becomes `UpdateChildren` of the old tree, nothing else changes |
| SidebarStore.SidebarStore.AddRecentFile | src/stores/sidebarStore.ts:90-95 | the recent list becomes `AddRecent` of the old list, nothing else changes |
| SidebarStore.SidebarStore.LoadParentDirectory | src/stores/sidebarStore.ts:96-110 | the new state is that of `loadParentDirectory` as written |
| FindReplaceStore.Clip | src/stores/findReplaceStore.ts:40-44 | a prefix of the text, the whole text when within the cap, exactly the cap's length otherwise |
| FindReplaceStore.ClipIdempotent | src/stores/findReplaceStore.ts:40-44 | cutting again changes nothing |
| FindReplaceStore.TextsCappedAndNotPersisted | src/stores/findReplaceStore.ts:35-56 | the texts stay within 1000 and 10000 characters, and panel actions and text edits never change the persisted options |
| FindReplaceStore.FindReplace.constructor | src/stores/findReplaceStore.ts:27-34 | closed, empty texts, options from storage |
| FindReplaceStore.FindReplace.Open | src/stores/findReplaceStore.ts:35 | opens, with the replace row as asked |
| FindReplaceStore.FindReplace.Close | src/stores/findReplaceStore.ts:36 | only the open flag is cleared |
| FindReplaceStore.FindReplace.ToggleReplace | src/stores/findReplaceStore.ts:37 | only the replace-row flag flips |
| FindReplaceStore.FindReplace.SetSearchText | src/stores/findReplaceStore.ts:38-41 | the search text becomes the clipped text, nothing else changes |
| FindReplaceStore.FindReplace.SetReplaceText | src/stores/findReplaceStore.ts:42-45 | the replace text becomes the clipped text, nothing else changes |
| FindReplaceStore.FindReplace.ToggleCaseSensitive | src/stores/findReplaceStore.ts:46 | only the case option flips |
| FindReplaceStore.FindReplace.ToggleRegex | src/stores/findReplaceStore.ts:47 | only the regex option flips |
| FindReplaceStore.FindReplace.ToggleWholeWord | src/stores/findReplaceStore.ts:48 | only the whole-word option flips |
| FindReplaceStore.FindReplace.Partialize | src/stores/findReplaceStore.ts:52-56 | exactly the three options are persisted |
| SettingsStore.MergeRoundTrip | src/stores/settingsStore.ts:35-42 | merging a fully saved record gives it back whatever the defaults; merging nothing gives the defaults |
| SettingsStore.MergeFieldwise | src/stores/settingsStore.ts:35-42 | each stored field wins over the default and each missing one falls back to it |
| SettingsStore.PatchIdempotent | src/stores/settingsStore.ts:63-86 | applying the same partial update twice equals applying it once, in every category |
| SettingsStore.ResetCategoryOnly | src/stores/settingsStore.ts:88-93 | a reset restores that category to src/types/settings.ts's defaults and keeps the others; resetting all four gives the defaults |
| SettingsStore.LegacyMode | src/stores/settingsStore.ts:126-127 | the legacy theme text is used exactly when it is "light", "dark" or "system" |
| SettingsStore.LoadSettingsOutcome | src/stores/settingsStore.ts:101-131 | stored settings with a theme give the merged defaults; nothing stored keeps the settings, except that a valid legacy theme replaces the theme |
| SettingsStore.Settings.constructor | src/stores/settingsStore.ts:59-61 | the defaults, not loaded |
| SettingsStore.Settings.UpdateTheme | src/stores/settingsStore.ts:63-68 | only the theme is patched |
| SettingsStore.Settings.UpdateEditor | src/stores/settingsStore.ts:70-74 | only the editor settings are patched |
| SettingsStore.Settings.UpdatePreview | src/stores/settingsStore.ts:76-80 | only the preview settings are patched |
| SettingsStore.Settings.UpdateGeneral | src/stores/settingsStore.ts:82-86 | only the general settings are patched |
| SettingsStore.Settings.ResetCategory | src/stores/settingsStore.ts:88-93 | the settings become `CategoryReset` of the old ones |
| SettingsStore.Settings.ResetAll | src/stores/settingsStore.ts:95-99 | the settings become the defaults |
| SettingsStore.Settings.LoadSettings | src/stores/settingsStore.ts:101-131 | the settings become those `loadSettings` computes, and the store is loaded |
| EditorStore.FirstSpace | src/stores/editorStore.ts:26 | the index of the first whitespace character, or the length when there is none |
| EditorStore.SkipSpaces | src/stores/editorStore.ts:26 | what remains starts with a non-space character, or is empty |
| EditorStore.SplitOnSpace | src/stores/editorStore.ts:26 | splitting on whitespace runs gives at least one piece |
| EditorStore.PiecesHaveNoSpace | src/stores/editorStore.ts:26 | no piece of the split holds whitespace |
| EditorStore.NonEmptyAppend | src/stores/editorStore.ts:26 | dropping empty pieces distributes over concatenation |
| EditorStore.Words | src/stores/editorStore.ts:26 | every word is non-empty and free of whitespace |
| EditorStore.WordCountIsWordStarts | src/stores/editorStore.ts:26 | the word count equals the number of maximal non-space runs |
| EditorStore.WordStartsSplit | src/stores/editorStore.ts:26 | word counts add up across a whitespace boundary |
| EditorStore.ReadingTime | src/stores/editorStore.ts:31 | at least one minute, and the least whole number of minutes at 225 words a minute |
| EditorStore.ReadingTimeMonotone | src/stores/editorStore.ts:31 | more words never give less reading time |
| EditorStore.Editor.constructor | src/stores/editorStore.ts:23-46 | the greeting text, no file, "Untitled.md", clean, split view, 0 words, 1 minute |
| EditorStore.Editor.SetContent | src/stores/editorStore.ts:25-33 | the new text, dirty, and counts that describe it; nothing else changes |
| EditorStore.Editor.SetFile | src/stores/editorStore.ts:38 | the new file, clean; nothing else changes |
| EditorStore.Editor.MarkDirty | src/stores/editorStore.ts:39 | only the dirty flag is set |
| EditorStore.Editor.MarkClean | src/stores/editorStore.ts:40 | only the dirty flag is cleared |
| EditorStore.Editor.SetMode | src/stores/editorStore.ts:43 | only the view mode changes |
| InlineHtml.SupportedTag | src/components/editor/extensions/wysiwyg/inlineHtmlDecorations.ts:34-36 | a tag is supported exactly when its name is "u", "sup" or "sub" |
| InlineHtml.NameRun | src/components/editor/extensions/wysiwyg/inlineHtmlDecorations.ts:138 | the longest run of `[\w:-]` characters at the start |
| InlineHtml.StripTrailing | src/components/editor/extensions/wysiwyg/inlineHtmlDecorations.ts:138 | the word boundary gives back trailing ':' and '-', leaving a name that ends in a word character |
| InlineHtml.ParseInlineHtmlMarker | src/components/editor/extensions/wysiwyg/inlineHtmlDecorations.ts:131-151 | an empty range gives nothing; a marker keeps the range, comes from a match that is not self-closing, is a close marker exactly when the match has '/', and its tag is the lower-cased name |
| InlineHtml.MatchRendered | src/components/editor/extensions/wysiwyg/inlineHtmlDecorations.ts:138 | the pattern matches every canonical marker with its slash and name |
| InlineHtml.ParseRendered | src/components/editor/extensions/wysiwyg/inlineHtmlDecorations.ts:131-151 | every canonical marker of a supported tag parses back to its kind and tag |
| InlineHtml.ParseMatched | src/components/editor/extensions/wysiwyg/inlineHtmlDecorations.ts:136-150 | any matched, not self-closing text with a supported name parses to a marker of that kind and tag |
| InlineHtml.SelfClosingIgnored | src/components/editor/extensions/wysiwyg/inlineHtmlDecorations.ts:140 | a tag ending in '/' and optional whitespace before '>' never parses |
| InlineHtml.InsertMarker | src/components/editor/extensions/wysiwyg/inlineHtmlDecorations.ts:96 | inserting keeps markers ordered by start then end, adding exactly the one marker |
| InlineHtml.SortMarkers | src/components/editor/extensions/wysiwyg/inlineHtmlDecorations.ts:96 | markers come out ordered by start then end, a permutation of the input |
| InlineHtml.SortRanges | src/components/editor/extensions/wysiwyg/inlineHtmlDecorations.ts:97-159 | ranges come out ordered by start, a permutation of the input |
| InlineHtml.ScanExcludedIff | src/components/editor/extensions/wysiwyg/inlineHtmlDecorations.ts:38-46 | a hit is always an overlap, and for ranges sorted by start every overlap is found |
| InlineHtml.IsRangeExcluded | src/components/editor/extensions/wysiwyg/inlineHtmlDecorations.ts:38-46 | the loop answers the scan |
| InlineHtml.SplitRangeByExcludedRanges | src/components/editor/extensions/wysiwyg/inlineHtmlDecorations.ts:48-73 | the loop pushes exactly the segments of the recursive split |
| InlineHtml.SplitOrdered | src/components/editor/extensions/wysiwyg/inlineHtmlDecorations.ts:48-73 | segments are non-empty, inside the range, in order and disjoint |
| InlineHtml.SplitCovers | src/components/editor/extensions/wysiwyg/inlineHtmlDecorations.ts:48-73 | for exclusions sorted by start the segments cover exactly the positions of the range outside every exclusion |
| InlineHtml.LastWithTag | src/components/editor/extensions/wysiwyg/inlineHtmlDecorations.ts:79-82 | the topmost index with the tag, or -1 when none has it |
| InlineHtml.PopMatchingOpenMarker | src/components/editor/extensions/wysiwyg/inlineHtmlDecorations.ts:75-90 | returns the topmost opener with the tag and drops it and every marker above it; otherwise nothing and the stack is kept |
| InlineHtml.PairInlineHtmlTagMarkers | src/components/editor/extensions/wysiwyg/inlineHtmlDecorations.ts:92-129 | the loop builds exactly the pairs of the specification over the sorted markers and exclusions |
| InlineHtml.PairMarker | src/components/editor/extensions/wysiwyg/inlineHtmlDecorations.ts:102-126 | one turn of the loop: skipping, pushing or pairing keeps the pairs built plus those still to come unchanged |
| InlineHtml.UsableHit | src/components/editor/extensions/wysiwyg/inlineHtmlDecorations.ts:103-107 | a marker with a position inside an exclusion is skipped |
| InlineHtml.PairsOk | src/components/editor/extensions/wysiwyg/inlineHtmlDecorations.ts:92-129 | every pair's opening range ends no later than its closing range starts, its content is the text between them and its range spans both, and neither marker overlaps a code or math range |
| InlineHtml.MalformedNestingRecovers | src/components/editor/extensions/wysiwyg/inlineHtmlDecorations.ts:83-86 | in `<u><sup>…</u></sup>` the `</u>` pairs with `<u>`, dropping `<sup>`, and `</sup>` then pairs with nothing |
| InlineHtml.StyleSegments | src/components/editor/extensions/wysiwyg/inlineHtmlDecorations.ts:166-173 | one content-style decoration per segment, in order |
| InlineHtml.AppendPairDecorations | src/components/editor/extensions/wysiwyg/inlineHtmlDecorations.ts:162-191 | one turn appends exactly that pair's decorations |
| InlineHtml.AppendInlineHtmlTagDecorations | src/components/editor/extensions/wysiwyg/inlineHtmlDecorations.ts:153-193 | the caller's list followed by every pair's decorations, in pair order |
| InlineHtml.PairDecorationsFacts | src/components/editor/extensions/wysiwyg/inlineHtmlDecorations.ts:163-191 | a pair's content is styled exactly outside the exclusions, and its markers are dimmed when the selection touches the pair and hidden otherwise |
| RangeUtils.Advance | src/components/editor/extensions/wysiwyg/utils.ts:26-28 | the cursor stops at the first range from its position that ends after the query, skipping only ranges that end by it |
| RangeUtils.AdvanceExact | src/components/editor/extensions/wysiwyg/utils.ts:26-32 | for ranges sorted by start, the range under the cursor holds the position exactly when some range does |
| RangeUtils.RangeChecker.constructor | src/components/editor/extensions/wysiwyg/utils.ts:22-23 | the index starts at 0 and nothing has been asked |
| RangeUtils.RangeChecker.Check | src/components/editor/extensions/wysiwyg/utils.ts:25-33 | the index only moves forward; a yes names a range holding the position; for sorted ranges and non-decreasing queries the answer is exact |
| RangeUtils.IsSelectionInRange | src/components/editor/extensions/wysiwyg/utils.ts:36-46 | a cursor must lie in `[from, to)` |
| RangeUtils.SelectionOverlapIff | src/components/editor/extensions/wysiwyg/utils.ts:45 | a non-empty selection passes exactly when it shares a position with the non-empty range |
| RangeUtils.CursorOnRangeLineIff | src/components/editor/extensions/wysiwyg/utils.ts:48-57 | the cursor line passes exactly when it is a document line whose span meets the range's first-to-last positions |
| BlockMath.FenceFlagAt | src/components/editor/extensions/wysiwyg/BlockMathWidget.ts:58-62 | a line is a fence exactly when its trimmed text is "$$" and its start is outside every code range |
| BlockMath.LineTextAt | src/components/editor/extensions/wysiwyg/BlockMathWidget.ts:57-91 | the collected line texts are the document's lines |
| BlockMath.Blocks | src/components/editor/extensions/wysiwyg/BlockMathWidget.ts:55-92 | every block's fence lines are lines of the document, in order |
| BlockMath.BlockCount | src/components/editor/extensions/wysiwyg/BlockMathWidget.ts:55-92 | the number of blocks is half the number of fence lines, rounded down, so an unclosed opener gives none |
| BlockMath.BlocksDelimited | src/components/editor/extensions/wysiwyg/BlockMathWidget.ts:61-89 | every block opens on a fence, closes on the very next fence and collects the lines between; blocks do not overlap |
| BlockMath.BlockContent | src/components/editor/extensions/wysiwyg/BlockMathWidget.ts:81-91 | a block's content is the document text strictly between its two fence lines |
| BlockMath.CloseFrom | src/components/editor/extensions/wysiwyg/BlockMathWidget.ts:98 | a closing `$` is searched at or after the given index |
| BlockMath.NextMatchFacts | src/components/editor/extensions/wysiwyg/BlockMathWidget.ts:98-105 | a match opens on a lone `$`, closes on the first lone `$` at least two characters later, and stays on one line; it is the leftmost position from the search start where the pattern matches, and no match is returned exactly when the pattern matches nowhere in the rest of the line |
| BlockMath.CloseFromNone | src/components/editor/extensions/wysiwyg/BlockMathWidget.ts:98 | when the lazy search for a closing `$` fails, no later `$` on the same line can close the match |
| BlockMath.BlockMathPass | src/components/editor/extensions/wysiwyg/BlockMathWidget.ts:49-92 | the block pass appends exactly the widgets of the inactive blocks and records every block's range |
| BlockMath.PassLine | src/components/editor/extensions/wysiwyg/BlockMathWidget.ts:56-92 | one line of the block pass keeps the pass state |
| BlockMath.BlockLine | src/components/editor/extensions/wysiwyg/BlockMathWidget.ts:61-91 | one line's decision (open, close, or collect) keeps the pass state |
| BlockMath.FenceLine | src/components/editor/extensions/wysiwyg/BlockMathWidget.ts:57-62 | the line's fence test, asking the code checker at the line start |
| BlockMath.DecideInline | src/components/editor/extensions/wysiwyg/BlockMathWidget.ts:106-120 | one match gets a widget unless it touches an exclusion or the selection or cursor line |
| BlockMath.InlineMathLine | src/components/editor/extensions/wysiwyg/BlockMathWidget.ts:102-121 | the matches of one line append exactly their inline widgets |
| BlockMath.InlineMatch | src/components/editor/extensions/wysiwyg/BlockMathWidget.ts:105-120 | one match appends its widget decision and the scan continues after it |
| BlockMath.InlineMathPass | src/components/editor/extensions/wysiwyg/BlockMathWidget.ts:94-122 | the inline pass appends exactly the inline widgets of every line |
| BlockMath.InlineLinePass | src/components/editor/extensions/wysiwyg/BlockMathWidget.ts:100-122 | one line of the inline pass |
| BlockMath.AppendMathDecorations | src/components/editor/extensions/wysiwyg/BlockMathWidget.ts:41-123 | the caller's list followed by the block widgets then the inline widgets, code and block ranges excluded from the inline pass |
| CodeBlockNav.BlockId | src/components/editor/extensions/wysiwyg/codeBlockArrowNavigationModel.ts:44-46 | the id is the node's start, ':' and its end, in decimal |
| CodeBlockNav.BlockIdInjective | src/components/editor/extensions/wysiwyg/codeBlockArrowNavigationModel.ts:44-50 | different ranges get different ids |
| CodeBlockNav.LineNumber | src/components/editor/extensions/wysiwyg/codeBlockArrowNavigationModel.ts:60-61 | the number of a document line whose bounds hold the position |
| CodeBlockNav.LastLineOf | src/components/editor/extensions/wysiwyg/codeBlockArrowNavigationModel.ts:61-66 | the line of the last character of the range is a document line |
| CodeBlockNav.BlockLines | src/components/editor/extensions/wysiwyg/codeBlockArrowNavigationModel.ts:60-85 | the fences are in order, the lines above and below exist exactly away from the document's edges, and their recorded positions lie on them |
| CodeBlockNav.BlockLineAbove | src/components/editor/extensions/wysiwyg/codeBlockArrowNavigationModel.ts:72-83 | the line above exists unless the opening fence is line 1, and its recorded position lies on it |
| CodeBlockNav.BlockLineBelow | src/components/editor/extensions/wysiwyg/codeBlockArrowNavigationModel.ts:73-85 | the line below exists unless the closing fence is the last line, and its recorded position lies on it |
| CodeBlockNav.BlockWithoutCode | src/components/editor/extensions/wysiwyg/codeBlockArrowNavigationModel.ts:62-90 | without code text the block has no code lines and no entry position |
| CodeBlockNav.BlockCodeOrder | src/components/editor/extensions/wysiwyg/codeBlockArrowNavigationModel.ts:60-67 | with code text, the first and last code lines lie between the fences, in order |
| CodeBlockNav.BlockCodeTargets | src/components/editor/extensions/wysiwyg/codeBlockArrowNavigationModel.ts:64-90 | the last code line's recorded position lies on it, and the entry position is one character into the first code line unless that line is empty |
| CodeBlockNav.UpFromFirstCodeLine | src/components/editor/extensions/wysiwyg/codeBlockArrowNavigationModel.ts:109-117 | 'up' on the first code line opens the block's language editor |
| CodeBlockNav.UpFromLineBelow | src/components/editor/extensions/wysiwyg/codeBlockArrowNavigationModel.ts:119-125 | 'up' on the line below the block moves onto the last code line |
| CodeBlockNav.DownFromLineAbove | src/components/editor/extensions/wysiwyg/codeBlockArrowNavigationModel.ts:129-140 | 'down' on the line above the block opens its language editor |
| CodeBlockNav.DownFromLastCodeLine | src/components/editor/extensions/wysiwyg/codeBlockArrowNavigationModel.ts:142-148 | 'down' on the last code line moves past the closing fence to the line below |
| CodeBlockNav.NoActionElsewhere | src/components/editor/extensions/wysiwyg/codeBlockArrowNavigationModel.ts:108-150 | on any other line, and for a block without code text, the block gives no action |
| CodeBlockNav.FirstMatchWins | src/components/editor/extensions/wysiwyg/codeBlockArrowNavigationModel.ts:108-150 | the blocks are tried in order and the first that answers wins |
| CodeBlockNav.FirstMatchNone | src/components/editor/extensions/wysiwyg/codeBlockArrowNavigationModel.ts:108-152 | no action exactly when no block answers |
| CodeBlockNav.ResolveArrow | src/components/editor/extensions/wysiwyg/codeBlockArrowNavigationModel.ts:98-153 | a non-empty selection gives no action |
| CodeBlockNav.NavigationBlocks | src/components/editor/extensions/wysiwyg/codeBlockArrowNavigationModel.ts:52-96 | one block record per node, in the nodes' order |
| CodeBlockNav.SelectAllRange | src/components/editor/extensions/wysiwyg/codeBlockArrowNavigationModel.ts:175-181 | several selection ranges give nothing |
| CodeBlockNav.SelectAllFirst | src/components/editor/extensions/wysiwyg/codeBlockArrowNavigationModel.ts:183-199 | select-all picks the code text of the first block that is hit and has code text |
| CodeBlockNav.SelectAllNone | src/components/editor/extensions/wysiwyg/codeBlockArrowNavigationModel.ts:183-201 | nothing is picked exactly when no hit block has code text |
| CodeBlockWidget.TokenColorCovers | src/components/editor/extensions/wysiwyg/CodeBlockWidget.ts:33-46 | exactly the listed Prism token types get a colour, each one a palette entry; tags, builtins, attribute names and properties take the keyword colour, chars, template strings and attribute values the string colour |
| CodeBlockWidget.TokensSnoc | src/components/editor/extensions/wysiwyg/CodeBlockWidget.ts:54-76 | one more token in a stream adds its text length and its marks, placed after the stream's text |
| CodeBlockWidget.TokenMarksSound | src/components/editor/extensions/wysiwyg/CodeBlockWidget.ts:57-75 | a token yields one mark per coloured token in its tree, each inside the text the token covers |
| CodeBlockWidget.TokensMarksSound | src/components/editor/extensions/wysiwyg/CodeBlockWidget.ts:48-78 | a stream yields one mark per coloured token, each inside the stream's text |
| CodeBlockWidget.ApplyToken | src/components/editor/extensions/wysiwyg/CodeBlockWidget.ts:55-75 | one token advances the position by its text length and appends exactly its marks |
| CodeBlockWidget.ApplyPrismTokens | src/components/editor/extensions/wysiwyg/CodeBlockWidget.ts:48-78 | the returned position is the start plus the stream's text length, and the marks pushed are exactly the stream's marks |
| CodeBlockWidget.ContainingIff | src/components/editor/extensions/wysiwyg/CodeBlockWidget.ts:180 | a language is kept by the filter exactly when it is listed and contains the query |
| CodeBlockWidget.ContainingShorter | src/components/editor/extensions/wysiwyg/CodeBlockWidget.ts:180 | the filter never lengthens the list |
| CodeBlockWidget.FilterOptions | src/components/editor/extensions/wysiwyg/CodeBlockWidget.ts:175-188 | at most eight options are shown |
| CodeBlockWidget.FilterOptionsSpec | src/components/editor/extensions/wysiwyg/CodeBlockWidget.ts:175-188 | the shown options are known languages containing the query, in list order; the list is hidden exactly when nothing matches or the only match equals the query; otherwise it shows the first min(8, matches) of them |
| CodeBlockWidget.EmptyQueryShowsFirst | src/components/editor/extensions/wysiwyg/CodeBlockWidget.ts:180-188 | an empty query shows the first eight known languages |
| CodeBlockWidget.ClampIndex | src/components/editor/extensions/wysiwyg/CodeBlockWidget.ts:215 | the index is clamped into the option range and left alone when already inside |
| CodeBlockWidget.LanguagePopover.constructor | src/components/editor/extensions/wysiwyg/CodeBlockWidget.ts:137-228 | the popover opens with the current language as input, no option shown and none active |
| CodeBlockWidget.LanguagePopover.FilterList | src/components/editor/extensions/wysiwyg/CodeBlockWidget.ts:175-209 | the options are rebuilt from the input and the active index is reset |
| CodeBlockWidget.LanguagePopover.SetInput | src/components/editor/extensions/wysiwyg/CodeBlockWidget.ts:246 | typing re-filters the options from the new input |
| CodeBlockWidget.LanguagePopover.SetActive | src/components/editor/extensions/wysiwyg/CodeBlockWidget.ts:211-218 | with no options nothing changes; otherwise the active index is the clamped request |
| CodeBlockWidget.LanguagePopover.Commit | src/components/editor/extensions/wysiwyg/CodeBlockWidget.ts:229-238 | only the first commit or cancel acts; it replaces the info string by the trimmed, lower-cased input when that differs from the current language |
| CodeBlockWidget.LanguagePopover.Cancel | src/components/editor/extensions/wysiwyg/CodeBlockWidget.ts:239-244 | closes the popover and leaves the document alone |
| CodeBlockWidget.LanguagePopover.KeyDown | src/components/editor/extensions/wysiwyg/CodeBlockWidget.ts:248-281 | the popover closes exactly on Enter or Escape; Escape never edits; Enter commits the active option or the typed text; Tab takes the active option and re-filters |
| CodeBlockWidget.AtMostOnce | src/components/editor/extensions/wysiwyg/CodeBlockWidget.ts:229-244 | once closed, no later commit, cancel or key edits the document |
| TaskCheckbox.TaskMarkerTexts | src/components/editor/extensions/wysiwyg/TaskCheckboxWidget.ts:4-6 | a task marker text is exactly "[ ]", "[x]" or "[X]" |
| TaskCheckbox.ToggleTaskMarkerText | src/components/editor/extensions/wysiwyg/TaskCheckboxWidget.ts:8-10 | the result is a marker, unchecked exactly when the text holds a checked marker |
| TaskCheckbox.ToggleFlips | src/components/editor/extensions/wysiwyg/TaskCheckboxWidget.ts:8-10 | on a marker, toggling flips the box, and toggling twice restores it ("[X]" comes back as "[x]") |
| TaskCheckbox.ClickChange | src/components/editor/extensions/wysiwyg/TaskCheckboxWidget.ts:39-56 | no change exactly when the bounds are outside the document, empty, or not around a marker; otherwise the marker is replaced by its toggle |
| TaskCheckbox.ClickReplacesMarker | src/components/editor/extensions/wysiwyg/TaskCheckboxWidget.ts:50-56 | a click that edits replaces exactly the marker and keeps the rest of the document |
| TaskCheckbox.ClickTwice | src/components/editor/extensions/wysiwyg/TaskCheckboxWidget.ts:35-57 | two clicks on a "[ ]" or "[x]" marker give the original document back |
| TaskCheckbox.TaskCheckboxWidget.constructor | src/components/editor/extensions/wysiwyg/TaskCheckboxWidget.ts:13-19 | the widget holds its state and marker bounds |
| TaskCheckbox.TaskCheckboxWidget.Click | src/components/editor/extensions/wysiwyg/TaskCheckboxWidget.ts:35-57 | the view's document and selection become those after the click |
| TaskCheckbox.EqReusesDom | src/components/editor/extensions/wysiwyg/TaskCheckboxWidget.ts:21-68 | when `eq` lets CodeMirror keep the old widget's DOM, the kept checkbox shows the new widget's state, and a click on it changes the document exactly as a click on the new widget would, toggling the marker at the new widget's range |
| FormatCommands.RunLeftMaximal | src/components/editor/formatCommands.ts:43 | the left count is the whole run of the marker character ending at the selection's start |
| FormatCommands.RunRightMaximal | src/components/editor/formatCommands.ts:45 | the right count is the whole run of the marker character starting at the selection's end |
| FormatCommands.CountLeft | src/components/editor/formatCommands.ts:42-43 | the counting loop returns the length of the run to the left |
| FormatCommands.CountRight | src/components/editor/formatCommands.ts:44-45 | the counting loop returns the length of the run to the right |
| FormatCommands.WrapSelectsCovered | src/components/editor/formatCommands.ts:18-66 | the new selection covers exactly the inner text, the unchanged text, or the newly wrapped text (or 'text' for an empty selection) |
| FormatCommands.WrapKeepsOutside | src/components/editor/formatCommands.ts:12-68 | unwrapping replaces the selection by its inner text, stripping removes only the two markers, wrapping puts the markers around the text; the rest of the document is kept |
| FormatCommands.EvenRunKeepsMarkers | src/components/editor/formatCommands.ts:36-47 | for a one-character symmetric marker beside an even run, the markers are not stripped |
| FormatCommands.WrappedLayout | src/components/editor/formatCommands.ts:65-66 | after wrapping, the markers sit right around the text and everything else is kept |
| FormatCommands.WrappedIsStrip | src/components/editor/formatCommands.ts:27-66 | after wrapping a non-empty selection, the markers sit just outside the new selection, so toggling again strips them |
| FormatCommands.WrapThenStrip | src/components/editor/formatCommands.ts:7-69 | toggling twice gives the document back, for markers other than one symmetric character |
| FormatCommands.StripChangesApply | src/components/editor/formatCommands.ts:50-56 | the two deletions leave the text between the markers stitched to the text around them |
| FormatCommands.WrapChangesApply | src/components/editor/formatCommands.ts:19-66 | the dispatched changes produce exactly the toggled document |
| FormatCommands.WrapGuard | src/components/editor/formatCommands.ts:12-60 | the guards pick the case: wrapped selection, strippable outer markers, or wrap |
| FormatCommands.ToggleWrap | src/components/editor/formatCommands.ts:7-69 | the document and the single selection become the toggled document and its selection |
| FormatCommands.HashRun | src/components/editor/formatCommands.ts:83 | the number of leading '#' characters, at most the line's length |
| FormatCommands.HeadingPrefixLen | src/components/editor/formatCommands.ts:83-84 | the length of a leading 1-6 '#' marker and whitespace, or 0 |
| FormatCommands.HeadingReplaced | src/components/editor/formatCommands.ts:82-87 | a heading marker is replaced by the prefix |
| FormatCommands.PrefixTwice | src/components/editor/formatCommands.ts:76-88 | on a line with neither the prefix nor a heading marker, applying the command twice gives the line back |
| FormatCommands.LineStartChange | src/components/editor/formatCommands.ts:78-87 | the change starts at the line start and stays within the line |
| FormatCommands.LineStartChangeApply | src/components/editor/formatCommands.ts:76-88 | the change rewrites only the line start: the prefix removed, or the heading marker replaced by the prefix |
| FormatCommands.InsertAtLineStart | src/components/editor/formatCommands.ts:71-90 | the line holding the selection's start is rewritten as above, the rest kept, and the selection mapped through the change |
| FormatCommands.ToggleCode | src/components/editor/formatCommands.ts:102-110 | a selection spanning lines is toggled with fence markers, any other with backticks |
| FormatCommands.InsertCodeBlock | src/components/editor/formatCommands.ts:113-122 | the empty fenced block is inserted at the selection's start with the cursor on its empty middle line |
| FormatCommands.InsertMathBlock | src/components/editor/formatCommands.ts:142-156 | an empty or multi-line selection becomes the empty math block with the cursor on its middle line; a one-line selection toggles '$' wrapping |
| EditorUtils.SanitizeChars | src/components/editor/editorUtils.ts:39-42 | each character outside the allowed set becomes '-', the others stay in place |
| EditorUtils.SanitizeFileNameShape | src/components/editor/editorUtils.ts:38-44 | a non-empty name keeps its length and every allowed character, and holds only allowed characters; an empty one gets the time-stamped fallback name |
| EditorUtils.SanitizeTwice | src/components/editor/editorUtils.ts:38-44 | sanitizing a sanitized name changes nothing |
| EditorUtils.DropExtension | src/components/editor/editorUtils.ts:47 | dropping the extension leaves a prefix of the name |
| EditorUtils.Remove | src/components/editor/editorUtils.ts:47 | removing a character leaves none of it and adds nothing |
| EditorUtils.NormalizeAltTextShape | src/components/editor/editorUtils.ts:46-48 | alt text never holds a bracket, and every character comes from the name or the fallback 'image' |
| EditorUtils.NormalizeAltTextOfPlainName | src/components/editor/editorUtils.ts:46-48 | a bracket-free name with an extension loses exactly its extension |
| EditorUtils.ParseFilePathFromText | src/components/editor/editorUtils.ts:50-79 | blank text gives nothing; any other non-URL text gives its trimmed self exactly when it starts with '/', a UNC prefix or a drive letter, colon and separator |
| EditorUtils.IsPathInDirectoryIff | src/components/editor/editorUtils.ts:81-89 | never inside an empty directory; always inside the directory itself; otherwise inside exactly when the path continues the directory after a separator |
| EditorUtils.InsideStartsWithDir | src/components/editor/editorUtils.ts:81-89 | a path inside a directory starts with it |
| EditorUtils.LeadingSpaces | src/components/editor/editorUtils.ts:490 | the leading-whitespace count covers whitespace only and stops before the first other character |
| EditorUtils.DigitRunLen | src/components/editor/editorUtils.ts:17 | the digit count covers digits only and stops before the first non-digit |
| EditorUtils.OrderedMarker | src/components/editor/editorUtils.ts:17 | a marker match gives the indentation (all leading whitespace) and a marker width of at least two |
| EditorUtils.OrderedMarkerIff | src/components/editor/editorUtils.ts:17 | a line matches the marker exactly when digits and '.' or ')' follow its indentation |
| EditorUtils.ItemContextOf | src/components/editor/editorUtils.ts:353-383 | the item context carries the enclosing item's own range |
| EditorUtils.ItemLines | src/components/editor/editorUtils.ts:464-486 | the item's first and last lines are document lines in order |
| EditorUtils.LineSpans | src/components/editor/editorUtils.ts:467-489 | one span per line of the range, each inside the document |
| EditorUtils.LineSpansOrdered | src/components/editor/editorUtils.ts:467-468 | the line spans are in order and do not touch |
| EditorUtils.ItemSpans | src/components/editor/editorUtils.ts:464-468 | the item's spans are ordered, at least one, and the first is the line of the item's start |
| EditorUtils.IndentChangesShape | src/components/editor/editorUtils.ts:458-477 | one change per line in order: exactly size spaces inserted at the line's start, and together a valid change set |
| EditorUtils.BuildIndentChanges | src/components/editor/editorUtils.ts:458-477 | the loop builds exactly the indent changes of the item's lines |
| EditorUtils.OutdentLineChange | src/components/editor/editorUtils.ts:489-498 | an outdent change deletes at most size characters at the line's start, within the line |
| EditorUtils.OutdentLineRemoves | src/components/editor/editorUtils.ts:490-492 | a line loses min(size, its leading whitespace) characters, all whitespace; a line without leading whitespace is left alone |
| EditorUtils.OutdentChangesValid | src/components/editor/editorUtils.ts:479-502 | the outdent changes form a valid change set, each from one line of the item |
| EditorUtils.OutdentChangeLine | src/components/editor/editorUtils.ts:488-499 | every outdent change is the change of one of the lines walked |
| EditorUtils.OutdentCoversLine | src/components/editor/editorUtils.ts:488-499 | every line with a change contributes it |
| EditorUtils.BuildOutdentChanges | src/components/editor/editorUtils.ts:479-502 | the loop builds exactly the outdent changes of the item's lines |
| EditorUtils.OutdentLines | src/components/editor/editorUtils.ts:488-501 | the loop over a line range builds exactly the outdent changes of those lines |
| OrderedLists.ExpectedMarker | src/components/editor/editorUtils.ts:523-524 | the expected marker is the number followed by the item's own delimiter |
| OrderedLists.RenumberItems | src/components/editor/editorUtils.ts:513-535 | at most one change per numbered item, and the count never exceeds the items walked |
| OrderedLists.RenumberChangeItem | src/components/editor/editorUtils.ts:515-532 | every change rewrites the mark of a numbered item that did not read its number into that number with its own delimiter |
| OrderedLists.RenumberCoversItem | src/components/editor/editorUtils.ts:515-535 | after the changes every numbered item reads its number: it already did, or a change rewrites it |
| OrderedLists.RenumberIdleIff | src/components/editor/editorUtils.ts:526-532 | a list needs no change exactly when every numbered item already reads its number |
| OrderedLists.RenumberListsIdleIff | src/components/editor/editorUtils.ts:504-540 | nothing changes exactly when no list needs a change |
| OrderedLists.RenumberItemsStep | src/components/editor/editorUtils.ts:516-534 | an item without a numeric mark is skipped without advancing the count; a numbered one gets a change only when it differs, and advances the count |
| OrderedLists.BuildRenumberChanges | src/components/editor/editorUtils.ts:504-540 | the walk over all lists builds exactly the lists' renumbering changes, list after list |
| OrderedLists.RenumberList | src/components/editor/editorUtils.ts:512-535 | the loop over one list's items builds exactly its renumbering changes |
| OrderedLists.RenumberNext | src/components/editor/editorUtils.ts:516-534 | one item of the loop advances the changes and the expected number as the specification says |
| OrderedLists.SiblingStepNone | src/components/editor/editorUtils.ts:409-423 | no step is found exactly when no nested list of the previous sibling starts deeper than the item |
| OrderedLists.SiblingStepFirst | src/components/editor/editorUtils.ts:409-421 | a found step is positive and leads to the first nested list that starts deeper |
| OrderedLists.IndentStepFromPreviousSibling | src/components/editor/editorUtils.ts:385-424 | no previous sibling gives no step; otherwise the loop finds the step to the first deeper nested list |
| OrderedLists.OutdentStepBounds | src/components/editor/editorUtils.ts:426-456 | the outdent step never exceeds the item's indentation, is zero exactly for a top-level or unindented item, and lands a deeper item on its parent's indentation |
| OrderedLists.IndentPlan | src/components/editor/editorUtils.ts:549-568 | the indent changes form a valid change set |
| OrderedLists.IndentPlanLines | src/components/editor/editorUtils.ts:549-568 | inside an ordered-list item the plan inserts exactly the indent size in spaces at the start of every line of the item, in order; outside one there is no plan |
| OrderedLists.IndentOrderedListItem | src/components/editor/editorUtils.ts:549-569 | handled exactly with an empty selection inside an ordered-list item; then the item is indented and the selection mapped, otherwise nothing changes |
| OrderedLists.OutdentPlan | src/components/editor/editorUtils.ts:575-586 | the outdent changes form a valid, non-empty change set |
| OrderedLists.OutdentPlanIff | src/components/editor/editorUtils.ts:571-590 | the outdent plan declines exactly outside an item, for an unindented item and for a zero step |
| OrderedLists.OutdentFirstLine | src/components/editor/editorUtils.ts:578-584 | an indented item's first line always loses some whitespace |
| OrderedLists.OutdentOrderedListItem | src/components/editor/editorUtils.ts:571-590 | handled exactly with an empty selection and an outdent plan; then the item is outdented and the selection mapped, otherwise nothing changes |
| ImagePath.ToPosixPath | src/utils/imagePath.ts:5-7 | every backslash becomes a slash and every other character stays, so the result has no backslash and the same length |
| ImagePath.ToPosixPathFixed | src/utils/imagePath.ts:5-7 | a path without backslashes is unchanged, and converting twice equals converting once |
| ImagePath.LastSeparator | src/utils/imagePath.ts:10 | the index of the last slash or backslash, or -1 exactly when there is none |
| ImagePath.GetDirectoryPath | src/utils/imagePath.ts:9-14 | a prefix of the path, empty exactly when there is no separator; otherwise the text before the last separator, or the leading separator alone when that is at index 0 |
| ImagePath.JoinPath | src/utils/imagePath.ts:16-21 | an empty directory gives the name; otherwise directory, then one separator only when the directory lacks a trailing one (a backslash when the directory holds one), then the name |
| ImagePath.DirectoryJoinRoundTrip | src/utils/imagePath.ts:9-21 | for a path with no backslash and no '/' just before its last separator, joining its directory with its last component gives back the path |
| ImagePath.DirectoryJoinIff | src/utils/imagePath.ts:9-21 | for every path, joining its directory with its last component gives the path back exactly when its last separator is at index 0 or absent, or the character before it is no separator and it is the separator `joinPath` picks ('\\' exactly when the directory holds one) |
| ImagePath.DrivePathIsNotWebUrl | src/utils/imagePath.ts:23-30 | a drive-letter path matches the scheme pattern yet is an absolute file path and not a web URL |
| ImagePath.ProtocolRelativeIsFilePath | src/utils/imagePath.ts:23-30 | a path starting with two slashes is an absolute file path and so not a web URL |
| ImagePath.SchemeUrlIsWebUrl | src/utils/imagePath.ts:27-30 | a scheme of two or more characters followed by a colon makes a web URL |
| ImagePath.NormalizeMarkdownUrl | src/utils/imagePath.ts:85-91 | the result is trimmed and never longer than the input |
| ImagePath.Unbracket | src/utils/imagePath.ts:88 | stripping the angle brackets and trimming gives a trimmed text at least two shorter |
| ImagePath.NormalizeBracketed | src/utils/imagePath.ts:85-91 | a bracketed URL normalises to its trimmed inside |
| ImagePath.NormalizeOfTrimmed | src/utils/imagePath.ts:86-88 | when the trimmed input is bracketed, the result is its trimmed inside |
| ImagePath.NormalizeBare | src/utils/imagePath.ts:86-90 | an already trimmed, unbracketed URL is returned unchanged |
| FileCopy.FileName | src/utils/fileCopy.ts:28-29 | the file name is a suffix of the path holding no separator |
| FileCopy.SplitExtension | src/utils/fileCopy.ts:30-32 | name and extension concatenate to the full name; the extension starts at the last dot, and is empty when there is no dot or the last dot is the first character |
| FileCopy.FirstFree | src/utils/fileCopy.ts:47-58 | the first untaken candidate from the starting number up to the hundredth attempt, or none when all are taken |
| FileCopy.FindAvailableCopyPath | src/utils/fileCopy.ts:24-62 | the search loop returns the first free copy name and its joined path, or nothing on a failed listing or when every candidate is taken |
| FileCopy.CopyNameFree | src/utils/fileCopy.ts:44-58 | a returned name is not among the listed names, and its path is that name joined to the file's directory |
| FileCopy.NoCopyName | src/utils/fileCopy.ts:36-61 | no result means the listing failed or all hundred candidates are listed |
| FileCopy.CandidatesDistinct | src/utils/fileCopy.ts:47-54 | different attempt numbers give different candidate names |
| TocPlugin.SlugifyUntrimmed | src/utils/tocPlugin.ts:12-19 | the trailing trim never changes a slug: slugify is lower-case, drop non-word characters, dash the spaces and collapse dashes, and the result is a slug |
| TocPlugin.SlugifyIsSlug | src/utils/tocPlugin.ts:12-19 | a slug holds only lower-case word characters and single dashes |
| TocPlugin.SlugifyOfSlug | src/utils/tocPlugin.ts:12-19 | a slug is its own slug |
| TocPlugin.SlugifyIdempotent | src/utils/tocPlugin.ts:12-19 | slugifying twice equals slugifying once |
| TocPlugin.StripSuffixed | src/utils/tocPlugin.ts:111-112 | removing a trailing '-digits' from a suffixed id gives back its base |
| TocPlugin.StripOfSuffixed | src/utils/tocPlugin.ts:111-112 | for a base not itself ending in '-digits', stripping the suffix of any numbered id gives back the base |
| TocPlugin.SuffixedDistinct | src/utils/tocPlugin.ts:111 | different counts give different ids for one base |
| TocPlugin.SuffixedIdsDiffer | src/utils/tocPlugin.ts:111 | ids from different plain bases or counts differ |
| TocPlugin.SlugIdsAsWritten | src/utils/tocPlugin.ts:109-113 | one id per heading slug, numbered by the count stored under the id with its '-digits' stripped |
| TocPlugin.AsWrittenDuplicates | src/utils/tocPlugin.ts:109-112 | headings slugged "a-1" then "a" both get the id a-1 |
| TocPlugin.AsWrittenPlain | src/utils/tocPlugin.ts:109-113 | when no slug ends in '-digits', the k-th repeat of a slug gets the suffix -k, and the counts are the occurrences so far |
| TocPlugin.AsWrittenDistinctOnPlain | src/utils/tocPlugin.ts:109-113 | when no slug ends in '-digits', all heading ids differ |
| TocPlugin.FreeSuffix | src/utils/tocPlugin.ts:110-111 | the first count from the stored one whose id is not yet in use |
| TocPlugin.UniqueSlugStep | src/utils/tocPlugin.ts:109-113 | the corrected step gives an id not in use and records it |
| TocPlugin.UniqueSlugsDistinct | src/utils/tocPlugin.ts:109-113 | the corrected numbering gives every heading a different id |
| TocPlugin.CorrectedAgreesOnPlain | src/utils/tocPlugin.ts:109-113 | on slugs not ending in '-digits' the corrected numbering equals the program's |
| TocPlugin.TocLineShape | src/utils/tocPlugin.ts:29-31 | a line is accepted exactly when its trimmed text is '[toc]' with any letters upper-case |
| TocPlugin.TocTokens | src/utils/tocPlugin.ts:36-43 | a [TOC] line becomes balanced open, empty body and close tokens |
| TocPlugin.TocBlockRule | src/utils/tocPlugin.ts:21-46 | accepts exactly a [TOC] line; outside silent mode consumes that line and pushes the three tokens, otherwise changes nothing |
| TocPlugin.HeadingLevel | src/utils/tocPlugin.ts:100 | an h1-h6 tag gives its level |
| TocPlugin.TocScanSlugs | src/utils/tocPlugin.ts:97-116 | the first pass's heading slugs are the program's numbering of the heading slugs |
| TocPlugin.TocSlugsDistinctOnPlain | src/utils/tocPlugin.ts:97-116 | when no heading slug ends in '-digits', the TOC's ids all differ |
| TocPlugin.MinLevel | src/utils/tocPlugin.ts:120 | the shallowest heading level, attained by some heading |
| TocPlugin.CollectTocEffect | src/utils/tocPlugin.ts:118-133 | only toc_body tokens change, only their content, only when there is a heading, and all get the same markup |
| TocPlugin.ScanToken | src/utils/tocPlugin.ts:98-115 | one token of the first pass advances the headings and counts as the scan specification says |
| TocPlugin.CollectToc | src/utils/tocPlugin.ts:90-134 | the token stream afterwards is the one the collection specification gives |
| HtmlEscape.Entity | src/utils/tocPlugin.ts:6-9 | each character escapes to itself or to an entity written '&...;' |
| HtmlEscape.ReplaceHit | src/utils/tocPlugin.ts:6-9 | a global replace turns a leading match into the replacement and goes on after it |
| HtmlEscape.ReplaceSkip | src/utils/tocPlugin.ts:6-9 | a global replace leaves alone a prefix not holding the pattern's first character |
| HtmlEscape.StageAllStep | src/utils/tocPlugin.ts:5-9 | each replace of the chain acts on every character on its own |
| HtmlEscape.EscapeHtmlPerChar | src/utils/tocPlugin.ts:4-10 | the chain of four replaces equals escaping each character independently (ampersand first, so no entity is escaped twice) |
| HtmlEscape.UnescapeEscape | src/utils/markdownConfig.ts:19-25 | decoding the four entities, ampersand last, gives back the escaped text |
| HtmlEscape.EscapeHtmlSafe | src/utils/markdownConfig.ts:19-25 | escaped text has no angle bracket and no double quote |
| MarkdownConfig.ScanEndShape | src/utils/markdownConfig.ts:34-39 | the scan stops at posMax or later, or on a '$' |
| MarkdownConfig.ScanEndFirstDollar | src/utils/markdownConfig.ts:34-38 | with no '$' or backslash before it, the scan stops at the first '$' |
| MarkdownConfig.ScanEndNoDollar | src/utils/markdownConfig.ts:34-39 | with no '$' left before posMax, the scan runs to posMax or beyond |
| MarkdownConfig.InlineMathMatch | src/utils/markdownConfig.ts:28-48 | a match opens with a single '$', closes on a '$' before posMax, and its content is the text strictly between |
| MarkdownConfig.InlineMathRejectsDouble | src/utils/markdownConfig.ts:31 | '$$' never starts inline math |
| MarkdownConfig.InlineMathPlain | src/utils/markdownConfig.ts:28-48 | a '$' followed, with no '$' or backslash between, by another '$' gives exactly the text between; an empty pair gives nothing |
| MarkdownConfig.InlineMathUnclosed | src/utils/markdownConfig.ts:35-39 | an opening '$' with no closing one before posMax matches nothing |
| MarkdownConfig.MathInline | src/utils/markdownConfig.ts:28-50 | the rule succeeds exactly on a match; it then moves past the closing '$' and, unless silent, pushes one math_inline token with the content; otherwise nothing changes |
| MarkdownConfig.ClosingLineFirst | src/utils/markdownConfig.ts:66-76 | the closing line found is a '$$' line in range with none before it |
| MarkdownConfig.ClosingLineNone | src/utils/markdownConfig.ts:66-77 | no closing line is found only when no line in range is '$$' |
| MarkdownConfig.MathBlock | src/utils/markdownConfig.ts:53-89 | succeeds exactly when the line opens with '$$' and, outside silent mode, a closing '$$' line follows before endLine; then pushes one math_block token with the trimmed lines between and continues after the closing line; otherwise nothing changes |
| MarkdownConfig.HighlightBranches | src/utils/markdownConfig.ts:95-105 | mermaid code goes escaped into a mermaid-block pre; a language Prism knows goes to Prism; anything else goes escaped into a plain pre; escaped code holds no '<', '>' or '"' and decodes back |
| ScrollSync.ClampRange | src/hooks/useSplitScrollSync.ts:21-23 | with min at most max, the result lies in the range, equals an in-range value and is the nearer bound otherwise |
| ScrollSync.ScrollableHeight | src/hooks/useSplitScrollSync.ts:25-27 | the scrollable height is never negative and is either 0 or the content height less the viewport |
| ScrollSync.LowerBoundFrom | src/hooks/useSplitScrollSync.ts:33-47 | the search result stays between its bounds |
| ScrollSync.LowerBoundSorted | src/hooks/useSplitScrollSync.ts:29-47 | on sorted items, everything before the result is below the value and everything from it on is at least the value |
| ScrollSync.LowerBound | src/hooks/useSplitScrollSync.ts:33-47 | the binary-search loop returns an index in 0..n that, on sorted items, splits them into those below the value and those at least the value |
| ScrollSync.DedupKeepsSmallest | src/hooks/useSplitScrollSync.ts:77-81 | every in-range node's editor top is kept, with a preview top no larger than the node's own |
| ScrollSync.DedupFromNode | src/hooks/useSplitScrollSync.ts:60-82 | every kept entry is the anchor of one of the nodes |
| ScrollSync.InsertAnchor | src/hooks/useSplitScrollSync.ts:84-88 | inserting adds exactly the new anchor |
| ScrollSync.InsertAscending | src/hooks/useSplitScrollSync.ts:84-88 | inserting a new editor top into an ascending list keeps it ascending |
| ScrollSync.SortAnchors | src/hooks/useSplitScrollSync.ts:85-88 | the map's entries come out as anchors ascending by editor top, each entry once |
| ScrollSync.BuildScrollAnchors | src/hooks/useSplitScrollSync.ts:53-89 | the anchors are the de-duplicated nodes (smallest preview top per editor top), ascending by editor top |
| ScrollSync.InterpolateRange | src/hooks/useSplitScrollSync.ts:100-146 | 0 when either pane cannot scroll; always within the target's scrollable range; with fewer than two anchors, the clamped proportional position |
| ScrollSync.InterpolateAtAnchor | src/hooks/useSplitScrollSync.ts:114-145 | with strictly ascending anchors, an anchor's own position maps to its counterpart, clamped |
| ScrollSync.AnchorRoundTrip | src/hooks/useSplitScrollSync.ts:148-180 | each anchor inside both ranges maps to its counterpart both ways, so the two maps undo each other there |
| Focus.NormalizeContextLines | src/components/editor/extensions/focus.ts:76 | the setting becomes its floor, and 0 exactly for values below one |
| Focus.DecoratesNonCursorLine | src/components/editor/extensions/focus.ts:53-69 | each decoration stands at the start of a non-cursor line of the range, and is context exactly when that line is a context line |
| Focus.NonCursorLineDecorated | src/components/editor/extensions/focus.ts:53-69 | every non-cursor line of a visible range is decorated |
| Focus.NoContextAllDimmed | src/components/editor/extensions/focus.ts:41-64 | with no context lines, every decoration dims |
| Focus.CollectCursorLines | src/components/editor/extensions/focus.ts:32-37 | the cursor lines are exactly the lines of the selection heads, each once |
| Focus.AddContextAround | src/components/editor/extensions/focus.ts:43-48 | the set gains exactly the document lines within the context distance of the cursor line |
| Focus.CollectContextLines | src/components/editor/extensions/focus.ts:40-50 | the context set is empty for a zero setting, and otherwise exactly the document lines within the distance of some cursor line |
| Focus.ContextMatches | src/components/editor/extensions/focus.ts:40-50 | the collected context set agrees with the context-line definition |
| Focus.NextPosition | src/components/editor/extensions/focus.ts:56-67 | the walk's next position lies past the current line, on the next line when within the range |
| Focus.DecorateLine | src/components/editor/extensions/focus.ts:56-67 | one step decorates the line under the position as its definition says and moves to the next line's start |
| Focus.WalkStep | src/components/editor/extensions/focus.ts:55-68 | each step of the walk advances the position and keeps the walk invariant |
| Focus.DecorateRange | src/components/editor/extensions/focus.ts:53-69 | the walk over one visible range decorates exactly the lines from its first to its last, in order |
| Focus.BuildDecorations | src/components/editor/extensions/focus.ts:29-72 | the decorations are those of every visible range's lines, range after range |
| Focus.FocusPlugin.constructor | src/components/editor/extensions/focus.ts:16-21 | a new plugin holds the decorations of the current view |
| Focus.FocusPlugin.Update | src/components/editor/extensions/focus.ts:23-27 | the decorations are rebuilt exactly when the selection, the document or the viewport changed |
| Focus.FocusExtension | src/components/editor/extensions/focus.ts:75-81 | the plugin's setting is the normalised one and its decorations are those of the view |

## Left out

- Concurrency and timing. The commands' async scheduling and the window between a check and a use are not modelled. Neither are the scroll-sync hook's `requestAnimationFrame` callbacks, driver lock and observers, or the debounced saves of the settings and sidebar stores. None of these changes a single operation's result.
- Rendering by foreign libraries: KaTeX, Prism's tokeniser, Mermaid, DOMPurify and markdown-it's own rules. The plugins' inputs and outputs are modelled; these libraries are parameters or are left out.
- DOM building in the widgets' `toDOM`, and the popover's DOM events, blur handling and `setTimeout`. The popover's key and click logic is modelled as `LanguagePopover`.
- The Lezer syntax tree. Each operation that walks it receives the nodes it reads as plain records: fenced code blocks, list items, the previous sibling, the parent item, ordered list marks.
- `OrderedLists.IndentOrderedListItem`, `OrderedLists.OutdentOrderedListItem`: after dispatching the indent or outdent, `editorUtils.ts:542-547` re-runs renumbering on the new document's syntax tree. The model does not, because that tree is not modelled. Renumbering on given marks is `OrderedLists.BuildRenumberChanges`.
- The `file://` URL branch of `parseFilePathFromText` (`URL`, `decodeURIComponent`) is not modelled. So are `toFileUrl`, `fromFileUrl`, `resolveRelativePath`, `resolveImageSrcForDisplay`, `getMarkdownImagePath` and `buildDestinationImagePath`, which rest on the `URL` API, `Date.now()` and `Math.random()`.
- The other toolbar commands of `formatCommands.ts` (`insertBlock`, `insertTable`, `insertTaskList`, `insertFootnote`, `insertToc`) are not part of this model. Each inserts a fixed template, the same way `FormatCommands.InsertCodeBlock` does.
- `Strings.ToLower`: only ASCII letters are lowered. Rust's `to_lowercase` and JavaScript's `toLowerCase` also lower the rest of Unicode.
- `DirectoryListing.SortEntriesSorted`: it orders names by the ASCII-only `Strings.ToLower`. For example, "Ébc" and "éab" sort as "Ébc", "éab" here, but Rust sorts them as "éab", "Ébc".
- `TocPlugin.SlugifyIsSlug`: it lowers with the ASCII-only `Strings.ToLower`. So a heading holding the Kelvin sign U+212A gives "" here, while JavaScript gives "k".
- Positions and lengths count characters, not UTF-16 code units. This holds for every CodeMirror position, for `TextDoc`, and for `FindReplaceStore.FindReplace.SetSearchText`'s 1000-character cap, which in JavaScript can split a surrogate pair.
- `TableModel.ClampTarget`: the target is a `real`, so the non-finite case of `clampTargetSize` (`Number.isFinite` failing for NaN or an infinity, which gives 1) is not modelled.
- `MarkdownState.InlineState.Push`: markdown-it's `push` first flushes any pending text (such as `abc ` before `$x$`) as a text token. The model keeps no pending text, so `MarkdownConfig.MathInline`'s one appended token is the library's behaviour only when nothing is pending.
- `Focus.NormalizeContextLines`: the setting is a real number, so the non-finite case of `Math.floor` is not modelled.
- Floating point. Scroll positions and pixel sizes in `ScrollSync` are exact reals, and rounding is not modelled.
- `Decoration.set(…, true)` sorting is not modelled. Decoration lists are built in document order, and the lemmas state that order.
- `PathValidation.ValidatePath`: the message of a failed parent canonicalisation drops the operating system's error text (`Parent directory does not exist: {e}`).
- `PathValidation.ValidatePath`, `FileCommands.WriteThenRead`: `canonicalize` is one fixed oracle, independent of the filesystem map. So a write that creates a path does not change how that path canonicalises afterwards.
- `DirectoryListing.ListingContents`, `DirectoryListing.KeptOnce`: the names `read_dir` yields are a parameter; `DirectoryListing.ListingHasEveryChild` ties them to the directory's children in the filesystem map under the assumption that `read_dir` yields each child once and nothing else.
- `DirectoryLoader.LoadDirectoryEntries`: the listing command is a parameter. Its contract relates the nodes to that answer, not to a directory.
- `TableWidgetEditor.EqReusesDom`, `TaskCheckbox.EqReusesDom`: the DOM that `toDOM` builds and CodeMirror's reuse of it are not modelled; the lemmas state only what a reused widget's edits do.
- `InlineHtml.PairsOk`: it does not state that a pair's opener and closer are an opening and a closing marker of the same tag; that follows from the stack discipline of `PairsFrom` but is not proved.
- `ImagePath.DirectoryJoinRoundTrip`: it needs its two conditions; a path with backslashes comes back with '/' ("a\\b" gives "a/b" when the directory holds none), and a doubled separator collapses ("a//b" gives "a/b"). `ImagePath.DirectoryJoinIff` states the exact condition.
- `TableWidgetEditor.TableWidget.UpdateCell`: it requires the column index to lie within the parsed header row. The rendered cells only offer such indices. JavaScript's sparse-array write past the end of a row is not modelled.
- `localStorage` writes, `applyTheme` and the `matchMedia` listener of the settings and sidebar stores are not modelled. Their reads are inputs: the stored text, or none.
- `LruCacheModel.LruCache.Get`: a stored `undefined` value is not modelled. In `cache.ts:16-17` it reads as a miss.
- The TOC's emphasis-stripping regular-expression chain (`tocPlugin.ts:103-108`) is the parameter `strip`.
- The `heading_open` renderer that writes each heading's `id` attribute (`tocPlugin.ts:53-74`) is not part of this model. It numbers slugs by the same rule as `TocPlugin.SlugIdsAsWritten`, with a counter that `collect_toc` clears.
- `AppErrors`: the `Display` and serde formatting of the errors is not modelled, only their variants.

## Findings

| source | as written | input that shows it | evidently intended | confidence | as-written member | corrected member |
|---|---|---|---|---|---|---|
| src/stores/sidebarStore.ts:97 | the folder of the opened file is `filePath.slice(0, filePath.lastIndexOf('/'))`; with no '/' that is `slice(0, -1)`, the path minus its last character | "notes.md" opens the folder "notes.m"; so does any Windows path such as `C:\docs\a.md`, giving `C:\docs\a.m` | a path without '/' has no parent folder to open | not executed | `SidebarStore.ParentDirAsWritten` / `SidebarStore.ParentDirAsWrittenTruncates` | `SidebarStore.ParentDir` / `SidebarStore.ParentDirAgrees` |
| src/utils/tocPlugin.ts:109-112 | a repeated slug gets `-count` appended, but the new id is never checked against the ids already given | headings "A 1" and "A" both get the id `a-1`; "A", "A", "A 1" give `a`, `a-1`, `a-1` | every heading gets a different id | not executed | `TocPlugin.SlugIdsAsWritten` / `TocPlugin.AsWrittenDuplicates` | `TocPlugin.UniqueSlugs` / `TocPlugin.UniqueSlugsDistinct` |
