# code2llm core, modelled in Dafny

code2llm is an editor extension with two parts. A file tree lets the user
tick files and directories. A copy command then puts the ticked files'
contents on the clipboard, lightly normalized and each under a header.
This project models the two pieces of logic behind that:

- **the checked-set state manager** (`FileSystemProvider`). It owns the set
  of checked file paths and finds a directory's descendant files by a
  breadth-first walk that skips a fixed set of ignored names. It derives a
  directory's checked state from the set. It lists a directory's children,
  directories first, and toggles a file or a whole subtree.
  `provider.dfy` holds it as a class whose `checked` field the methods
  reassign. `file_system.dfy` holds the filesystem and the recursive
  definition of "descendant". `listing.dfy` holds the sort and the filter
  of a listing. `sets.dfy` holds the insertion-ordered string set.
- **the export formatter** (the body of `customFileTreeView.copyCheckedFiles`).
  It reads each checked path in order and normalizes the text: JSON is
  minified, anything else gets a line-based whitespace pass. It appends a
  labelled section and sorts every path into the result lists. At the end it
  drops one leading `"\n\n"` and decides on the clipboard and the message.
  `text_normalize.dfy` holds the whitespace pass and its proofs (normal
  form, fixed points, idempotence). `export.dfy` holds the loop.
  `paths.dfy` holds `basename`, `extname`, `relative` and the display label.

The filesystem is a finite map from a readable directory's path to its
listing of `(name, kind)` pairs; a path missing from the map is one whose
`readDirectory` fails. A file read, `JSON.parse` followed by
`JSON.stringify`, and `path.relative` on a real OS are not modelled as
code. The first two are oracles given as parameters. The third is a
'/'-separated function. A directory's checked state is never stored; it is
the predicate `DirectoryChecked`: at least one descendant file, and all of
them in the set.

## Behaviour of the code worth noting

The model follows the code as written, including these points:

- A text indented on its first line loses that indentation. The per-line
  pass keeps it, but the final `trim()` of the whole text removes it. So
  `"    x\n"` becomes `"x"`, not `"    x"` (`TextNormalize.IndentedLineExample`,
  `TextNormalize.LiteralExamples`).
- A directory toggle sets every descendant file to the negation of the
  `isChecked` the item was *built* with, not of a freshly computed state.
  Toggling twice from freshly built items restores the set only when the
  subtree started fully checked or fully unchecked. A partial selection
  below it is lost (`Provider.ToggleDirectoryTwice`).
- The walk's visited set is keyed by the joined path string, not a
  canonical path, so it is no guard against symbolic-link cycles. Entries
  whose type carries the symbolic-link bit are compared with `===` against
  `File` and `Directory`, so they are neither collected nor queued (kind
  `Other`).
- Without a workspace root the display label is the full file path, not
  the base name.
- The whitespace pass cannot fail in the model. Only a JSON parse failure
  reaches the processing-failed list.
- The summary line's condition is modelled as written (unique names, and
  a count of tagged entries). It is proved equivalent to "some file was
  recorded as processed" (`Export.SummaryIffProcessed`).

## Model

| member | source | states |
|---|---|---|
| `InsertionSets.Add` | src/fileSystemProvider.ts:165 | `Set.add` keeps the old insertion order as a prefix, adds exactly the new element, and keeps the elements distinct |
| `InsertionSets.Without` | src/fileSystemProvider.ts:167 | deleting a set of paths leaves exactly the other elements, still distinct |
| `InsertionSets.WithoutAppend` | src/fileSystemProvider.ts:167 | deleting from a concatenation deletes from each part, so the elements that stay keep their insertion order |
| `InsertionSets.WithoutSingle` | src/fileSystemProvider.ts:167 | a one-element set keeps its element exactly when it is not deleted |
| `Paths.BaseNameOfJoin` | src/fileSystemProvider.ts:85 | the base name of `joinPath(dir, name)` is `name` when `name` is one segment |
| `Paths.ExtensionOfName` | src/commands.ts:37 | `extname` of a base name `stem.ext` (stem non-empty, no dot) is `.ext` |
| `Paths.RelativeOfDescendant` | src/commands.ts:76 | `relative(from, to)` of a path below `from` is its extra segments joined by '/' |
| `Paths.RelativeToItself` | src/commands.ts:76-77 | a path relative to itself is the empty string |
| `Paths.DisplayPathSpec` | src/commands.ts:74-78 | the label is the relative path below the root, the base name for the root itself, and the full path without a root |
| `FileSystem.ChildIsDescendant` | src/fileSystemProvider.ts:81-90 | a non-ignored child of a kind is a descendant of that kind; everything below a non-ignored child directory is a descendant |
| `FileSystem.DescendantsTransitive` | src/fileSystemProvider.ts:86-87 | the descendants of a descendant directory are descendants |
| `FileSystem.DescendantShape` | src/fileSystemProvider.ts:81-90 | every descendant of a kind is a non-ignored entry of that kind in the start directory or in a descendant directory |
| `FileSystem.DescendantsNotIgnored` | src/fileSystemProvider.ts:81-84 | no descendant, file or directory, has an ignored base name |
| `FileSystem.DescendantsClosed` | src/fileSystemProvider.ts:72-95 | a set of directories closed under non-ignored sub-directories holds every descendant of its members |
| `Listing.NameLeqTotal` | src/fileSystemProvider.ts:131 | the name order standing for `localeCompare` is total |
| `Listing.NameLeqTransitive` | src/fileSystemProvider.ts:131 | the name order is transitive |
| `Listing.NameLeqAntisymmetric` | src/fileSystemProvider.ts:131 | the name order is antisymmetric |
| `Listing.EntryLeqTransitive` | src/fileSystemProvider.ts:128-132 | the comparator (directories first, then by name) is transitive |
| `Listing.SortEntries` | src/fileSystemProvider.ts:128-132 | the sorted listing is ordered by the comparator and is a permutation of the listing |
| `Listing.Visible` | src/fileSystemProvider.ts:134-137 | an entry is kept iff it is in the listing and its name is not ignored |
| `Listing.ShownEntries` | src/fileSystemProvider.ts:128-137 | the shown entries put directories first and each group by name, and are exactly the non-ignored entries with their multiplicities |
| `Provider.LabelShowsName` | src/fileSystemProvider.ts:30-33 | the label is exactly `"[x] "` or `"[ ] "`, as the item is checked or not, followed by the entry name |
| `Provider.FlipFile` | src/fileSystemProvider.ts:173-177 | a file toggle flips that path's membership, leaves every other path's membership alone, and keeps the set distinct |
| `Provider.FileSystemProvider.constructor` | src/fileSystemProvider.ts:40-42 | a new provider has the given root and an empty checked set |
| `Provider.FileSystemProvider.GetWorkspaceRoot` | src/fileSystemProvider.ts:44-46 | returns the current root |
| `Provider.FileSystemProvider.Refresh` | src/fileSystemProvider.ts:48-50 | fires the change event once and changes nothing else |
| `Provider.FileSystemProvider.AllFileDescendants` | src/fileSystemProvider.ts:56-97 | the walk returns exactly the descendant files, and expands each directory path at most once: the start directory and every descendant directory |
| `Provider.FileSystemProvider.CalculateDirectoryCheckedState` | src/fileSystemProvider.ts:99-105 | false without descendant files; otherwise true iff every descendant file is checked |
| `Provider.FileSystemProvider.GetChildren` | src/fileSystemProvider.ts:107-155 | no root gives no items; an unreadable directory gives none; otherwise one item per non-ignored entry of the sorted listing, with its derived checked state |
| `Provider.FileSystemProvider.SetAll` | src/fileSystemProvider.ts:162-170 | adding every path keeps the old order as a prefix and adds exactly those paths; deleting removes exactly those paths |
| `Provider.FileSystemProvider.ToggleItemChecked` | src/fileSystemProvider.ts:157-180 | a directory sets each descendant file to the negation of the shown state, other paths unchanged; a file flips its own membership; the view is refreshed |
| `Provider.FileSystemProvider.GetCheckedFilePaths` | src/fileSystemProvider.ts:182-184 | the checked paths, in insertion order, without duplicates |
| `Provider.FileSystemProvider.UpdateWorkspaceRoot` | src/fileSystemProvider.ts:186-190 | the root is replaced, the checked set is empty, the view is refreshed |
| `Provider.FlipFileTwice` | src/fileSystemProvider.ts:172-177 | a file toggled twice has its old membership back |
| `Provider.ToggleSetsDerivedState` | src/fileSystemProvider.ts:157-170 | toggling a directory with descendant files makes its derived state the negation of the state it was shown with |
| `Provider.ToggleDirectoryTwice` | src/fileSystemProvider.ts:157-170 | two toggles from fresh items restore the set iff the subtree was fully checked or fully unchecked |
| `Provider.ChildItemsOrdered` | src/fileSystemProvider.ts:128-132 | listed items put directories before files, each group by name |
| `Provider.ChildItemsChecked` | src/fileSystemProvider.ts:143-147 | no listed item has an ignored name; a file item is checked iff its path is in the set, a directory item iff its derived state holds |
| `Provider.ChildItemsComplete` | src/fileSystemProvider.ts:134-149 | every non-ignored entry of the directory has its item |
| `TextNormalize.SplitLines` | src/commands.ts:44 | the split gives at least one line, and no line holds '\r' or '\n' |
| `TextNormalize.JoinSplitLines` | src/commands.ts:44 | without '\r', joining the split lines with '\n' gives the text back |
| `TextNormalize.SqueezeSpacesUnchangedIff` | src/commands.ts:50 | squeezing spaces changes a string iff it has a double space |
| `TextNormalize.NormalizeLineSpec` | src/commands.ts:45-55 | a line keeps its indentation; after it there is no double space and no trailing whitespace; a normal line is unchanged; the non-whitespace characters survive in order |
| `TextNormalize.SqueezeSpacesStep` | src/commands.ts:50 | a double space squeezes as a single one, so (with `SqueezeSpacesUnchangedIff`) every run of two or more spaces becomes exactly one space |
| `TextNormalize.NormalizeLineKeepsContent` | src/commands.ts:45-55 | the per-line map removes only whitespace: the non-whitespace characters of the line survive, in order |
| `TextNormalize.NormalizeLineFixedIff` | src/commands.ts:45-55 | the lines the per-line map leaves alone are exactly the normal lines |
| `TextNormalize.CollapseNoTriple` | src/commands.ts:59 | after collapsing there is no run of three newlines |
| `TextNormalize.CollapsePreservesLines` | src/commands.ts:59 | collapsing blank lines keeps every line normal |
| `TextNormalize.TrimSpec` | src/commands.ts:61 | the trimmed text has no outer whitespace, adds no character, and keeps the other normal-form properties |
| `TextNormalize.NormalizeTextNormalForm` | src/commands.ts:44-61 | the output has no '\r', no run of three newlines, no outer whitespace, every line is normal, and its non-whitespace characters are the input's, in order |
| `TextNormalize.NormalizeTextKeepsContent` | src/commands.ts:44-61 | the whole pass only removes or replaces whitespace: the non-whitespace characters of output and input are the same, in the same order |
| `TextNormalize.NormalizeTextFixedIff` | src/commands.ts:44-61 | the texts the pass leaves unchanged are exactly those in normal form |
| `TextNormalize.NormalizeTextIdempotent` | src/commands.ts:44-61 | normalizing twice equals normalizing once |
| `TextNormalize.SpacesAndBlankLinesExample` | src/commands.ts:44-61 | for any indentation and words `a`, `b`, `c`: `ind + a + "  " + b + "\n\n\n\n" + c + "  "` normalizes to `a + " " + b + "\n\n" + c` |
| `TextNormalize.IndentedLineExample` | src/commands.ts:44-61 | for any indentation and word `w`: `ind + w + "\n"` normalizes to `w`; the first line's indentation does not survive the final trim |
| `TextNormalize.LiteralExamples` | src/commands.ts:44-61 | `"  x  y\n\n\n\nz  "` normalizes to `"x y\n\nz"`, and `"    x\n"` to `"x"` |
| `Export.ErrorLabel` | src/commands.ts:70 | the error label is the error's name, or a non-empty default when the name is empty |
| `Export.StripLeadingBreaks` | src/commands.ts:90-92 | exactly one leading `"\n\n"` is removed when present; otherwise the text is unchanged |
| `Export.ProcessFile` | src/commands.ts:35-72 | the normalization step computes the text to copy and the processed or failed entry |
| `Export.ProcessEntries` | src/commands.ts:39-72 | a file gets at most one of a processed and a failed entry, and a processed entry carries its tag |
| `Export.ProcessJson` | src/commands.ts:40-42 | a `.json` file is recorded as JSON formatted iff the minifier succeeds, and then copies its output; otherwise it copies the original and is recorded as failed |
| `Export.ProcessText` | src/commands.ts:43-66 | any other file copies text in normal form, never fails, is recorded iff the text changed, and its output would not be recorded again |
| `Export.CopyCheckedFiles` | src/commands.ts:16-117 | no checked path gives an early return; otherwise the loop's lists and payload are those of the per-path results in order, followed by the decision |
| `Export.CopyCheckedFilesCommand` | src/commands.ts:16-17 | the command exports the provider's checked paths in insertion order, under its root |
| `Export.StepUnreadable` | src/commands.ts:84-87 | an unreadable path adds one read-failure entry and nothing else |
| `Export.StepReadable` | src/commands.ts:80-83 | a readable path appends its section, its name and its processing entries |
| `Export.ReadableResult` | src/commands.ts:74-83 | a readable path's section is the header with its display label followed by its processed text |
| `Export.Partition` | src/commands.ts:30-88 | every path is in exactly one of the read and the failed-to-read lists; processing entries are at most one per file read |
| `Export.Concatenation` | src/commands.ts:30-88 | the payload and every list of a concatenation of paths is the concatenation, so sections follow path order |
| `Export.AppendUnreadable` | src/commands.ts:84-87 | an unreadable path adds no section and no name, and one failure entry |
| `Export.AppendReadable` | src/commands.ts:80-83 | a readable path's section comes after the sections of the paths before it |
| `Export.PayloadStart` | src/commands.ts:90-92 | the payload is empty when nothing was read, and otherwise starts with the `"\n\n"` the strip removes |
| `Export.NamesNonEmpty` | src/commands.ts:94 | the read list is non-empty iff some path was read |
| `Export.SummaryIffProcessed` | src/commands.ts:98-106 | when every processed entry is tagged, the summary line appears iff some file was processed |
| `Export.DecideSpec` | src/commands.ts:90-117 | the clipboard is written iff some file was read, with the payload less its leading `"\n\n"`; a warning iff some processing failed; the summary iff something was processed; otherwise every path is in the error message |
| `Export.CommandOutcome` | src/commands.ts:94-117 | a non-empty selection always ends with a message, and the clipboard is written iff some checked path can be read |

## Left out

- src/extension.ts: activation, tree-view registration and workspace-folder events are host glue.
- The editor APIs (`readDirectory`, `readFile`, the clipboard, the message boxes) are not modelled as code. The filesystem is a map, file reads and `JSON.parse`/`JSON.stringify` are oracle parameters, and the outcome is a value naming the clipboard text and the message's lists.
- `onDidChangeTreeData`: a ghost counter of refreshes stands for the event.
- Message wording, `console` logging, and the tree item's tooltip, description, command and collapsible state.
- `TextDecoder`: file contents are strings.
- async/await: every operation runs to completion in sequence.
- `Listing.NameLeq`: `localeCompare` depends on the locale; the model uses character-code lexicographic order.
- `Listing.SortEntries`: `Array.prototype.sort` is modelled by an insertion sort. The model proves the ordering and the permutation. It does not fix the relative order of two entries the comparator ranks equal (same name, and both or neither of them directories).
- `Paths.Relative`: `path.relative` and `path.normalize` are modelled for '/'-separated paths without `.` or `..` segments; Windows separators, drive letters and trailing slashes are not modelled.
- `Paths.Extension`: `path.extname` does not strip trailing slashes in the model.
- `Paths.IsJsonPath`: `toLowerCase` is modelled on ASCII letters only, which decides the `.json` test exactly.
- Symbolic-link cycles: the walk terminates here because the map is finite; the model claims no protection against cycles.
- The JSON minifier's output is not verified; only how its success or failure is recorded.
