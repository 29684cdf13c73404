# pyrmd batch renamer, modelled in Dafny

pyrmd is a small browser tool that renames a batch of files. The user picks some files and types one target extension. Every file gets a new name made of its base name and that extension. After a "transform" step, the user downloads each file under its new name, one at a time or all together in a ZIP archive. File contents are never changed.

The whole logic sits in one React component, `FileExtensionChanger` in `pyrmd-app/src/App.js`. This project models it in three modules:

- `Naming` (`naming.dfy`) holds the pure name arithmetic:
  - `lastIndexOf('.')` (`LastDot`);
  - the base name, which is the text before the last dot, or the whole name when that text is empty (`BaseName`);
  - the original extension, which is the last piece of `split('.')` (`OriginalExtension`);
  - the typed extension with one leading dot removed (`CleanExtension`);
  - the new name (`NewName`).
- `Batch` (`batch.dfy`) holds the batch as values:
  - the per-file record `FileEntry`;
  - the three whole-batch rewrites the handlers apply with `map` and object spread (`FromSelection`, `Renamed`, `MarkedProcessed`);
  - the choice of archive members (`ArchiveMembers`) and the pair a single download consists of (`AsMember`);
  - the processed count and the render-time guards (`AnyProcessed`, `ZipOffered`, `TransformOffered`, `DownloadOffered`);
  - `WellFormed`, the invariant the handlers keep, and the lemmas about all of these.
- `App` (`app.dfy`) holds the component itself:
  - the class `FileExtensionChanger`, with the three state fields `files`, `newExtension` and `isProcessing`;
  - one method per handler, each stating the whole new state in terms of the `Batch` functions and keeping `Valid()`;
  - `DownloadAllFiles`, which builds the member list with a loop, as the source's `forEach` does;
  - three scenario methods that drive the class through whole sessions.

The file handle is a type parameter `B`. The model passes it along and never inspects it, so a member's content is the very handle that was selected.

Four points of the code worth knowing:

- The archive is named `pyrmd-transformed-files.zip` (line 85).
- `downloadFile` does not check that the entry is processed. Only the render guard at line 255 hides the button. So `AsMember` has no precondition, and `DownloadOffered` models the guard.
- A freshly selected entry has `newName == ""`. That holds even when an extension is already set, because `handleFileSelect` does not rename. So the invariant allows `newName` to be either `""` or the derived name.
- For a hidden-file name such as `.bashrc`, the base name is the whole name, because the `|| file.name` fallback catches the empty prefix. The original extension is still `bashrc`, because `split('.').pop()` takes the last piece. The model keeps both as written.

## Model

| member | source | states |
|---|---|---|
| `Naming.LastDot` | pyrmd-app/src/App.js:17 | The result is -1 exactly when the name has no dot. Otherwise it is the index of a dot with no dot after it. |
| `Naming.OriginalExtension` | pyrmd-app/src/App.js:16 | The result is a dot-free suffix of the name. It is the whole name when there is no dot. Otherwise a dot stands right before it. |
| `Naming.BaseName` | pyrmd-app/src/App.js:17 | The result is a prefix of the name, and it is non-empty when the name is. It is the whole name exactly when no dot occurs after the first character; this covers no dot at all and a hidden-file name. Otherwise the name is the result, a dot, and the original extension. |
| `Naming.CleanExtension` | pyrmd-app/src/App.js:26 | With a leading dot, the input is `"."` plus the result. Without one, the result is the input unchanged. |
| `Naming.NewName` | pyrmd-app/src/App.js:33 | The base name is a prefix of the result. The result equals the base name exactly when the extension is empty. Otherwise the base name is followed by a dot and the extension. |
| `Naming.LastDotBeforeTail` | pyrmd-app/src/App.js:17 | In `s + "." + t` with dot-free `t`, the last dot is at position `|s|`. |
| `Naming.NewNameRoundTrip` | pyrmd-app/src/App.js:16-33 | Take a new name built from a non-empty base and a non-empty, dot-free extension. Splitting it again gives back that base name and that extension. |
| `Naming.LeadingDotIgnored` | pyrmd-app/src/App.js:26-33 | For an extension without a leading dot, typing it with one leading dot gives the same cleaned extension and the same new name. |
| `Naming.CleanExtensionStripsOneDot` | pyrmd-app/src/App.js:26 | Only one dot is stripped: `"..pdf"` becomes `".pdf"`, and the new name is `"a..pdf"`. |
| `Naming.BaseNameOfHiddenOrPlainName` | pyrmd-app/src/App.js:17 | A dot-free name, and a dot followed by dot-free text, each keep the whole name as base name. |
| `Batch.NewEntry` | pyrmd-app/src/App.js:12-20 | The entry keeps the position as `id`, the selected handle and name. Its base name is a prefix of the name, non-empty for a non-empty name. Its original extension is a dot-free suffix of the name. It has an empty new name and is unprocessed. |
| `Batch.AsMember` | pyrmd-app/src/App.js:57-66 | A single download saves the entry's new name with its original file, unaltered. It has no processed check; `SingleDownloadMatchesArchive` ties it to the archive. |
| `Batch.ArchiveMembers` | pyrmd-app/src/App.js:72-76 | The members added by the `forEach`. There are never more than entries, and none exactly when no entry is processed. `ArchiveMembersCount`, `ArchiveMembersSound` and `ArchiveMemberAt` pin it down as the processed entries in batch order. |
| `Batch.ProcessedCount` | pyrmd-app/src/App.js:276 | The `filter(...).length` count never exceeds the batch length. `ProcessedCountBounds` adds that it is positive exactly when some entry is processed. |
| `Batch.AnyProcessed` | pyrmd-app/src/App.js:216 | The `some(f => f.processed)` test holds only of a non-empty batch. `ProcessedCountBounds` ties it to the count at line 276. |
| `Batch.ZipOffered` | pyrmd-app/src/App.js:196-216 | The ZIP button needs an extension (the guard at 196 it is nested in) and a processed entry, so a non-empty batch. `ZipOfferedIffCounted` ties it to the count. |
| `Batch.TransformOffered` | pyrmd-app/src/App.js:144-200 | The transform button is shown only for a non-empty batch (144) with an extension (196), and enabled only when no transform is running (200). |
| `Batch.DownloadOffered` | pyrmd-app/src/App.js:255 | An entry shows its download button exactly when an archive of that entry alone holds it as its member. |
| `Batch.FromSelection` | pyrmd-app/src/App.js:11-20 | There is one entry per selected file, in selection order. Each has `id` equal to its position, the selected handle and name, an empty new name, and is unprocessed. |
| `Batch.Renamed` | pyrmd-app/src/App.js:31-35 | The length is kept. Each entry gets the derived new name and is unprocessed; all other fields are unchanged. |
| `Batch.MarkedProcessed` | pyrmd-app/src/App.js:48-51 | The length is kept. Each entry is processed; all other fields are unchanged. |
| `Batch.FromSelectionWellFormed` | pyrmd-app/src/App.js:12-20 | A fresh batch satisfies the invariant under any extension. A non-empty file name gives a non-empty base name. |
| `Batch.RenamedWellFormed` | pyrmd-app/src/App.js:30-35 | Renaming keeps the invariant, now under the new extension. Every entry with a non-empty name gets a non-empty new name. |
| `Batch.MarkedProcessedWellFormed` | pyrmd-app/src/App.js:40-51 | Marking everything processed under a non-empty extension keeps the invariant. |
| `Batch.RenamedIdempotent` | pyrmd-app/src/App.js:30-35 | Renaming twice for the same extension gives the same batch as renaming once. |
| `Batch.RenamedClearsProcessed` | pyrmd-app/src/App.js:30-35 | After a rename the processed count is 0, the archive is empty and no entry is processed. |
| `Batch.ProcessedCountAppend` | pyrmd-app/src/App.js:276 | The processed count of a concatenation is the sum of the two counts. |
| `Batch.ProcessedCountBounds` | pyrmd-app/src/App.js:276 | The processed count is at most the batch length. It is positive exactly when some entry is processed. |
| `Batch.ZipOfferedIffCounted` | pyrmd-app/src/App.js:196-216 | In a state satisfying the invariant, the ZIP button is shown exactly when the processed count is positive. When it is shown, the archive is non-empty. |
| `Batch.ProcessedCountPrefix` | pyrmd-app/src/App.js:72-76 | The count of processed entries before an index never decreases. It grows past each processed entry, so archive positions follow batch order. |
| `Batch.ArchiveMembersAppend` | pyrmd-app/src/App.js:72-76 | The members of a concatenation are the first part's members followed by the second part's, so batch order is kept. |
| `Batch.ArchiveMembersCount` | pyrmd-app/src/App.js:72-76 | One member is added per processed entry: the number of members is the processed count. |
| `Batch.ArchiveMembersSound` | pyrmd-app/src/App.js:72-76 | Every member is some processed entry's new name paired with that entry's original file. |
| `Batch.ArchiveMemberAt` | pyrmd-app/src/App.js:72-76 | Each processed entry appears at the position given by the number of processed entries before it, with its new name and its original file. |
| `Batch.NoneProcessed` | pyrmd-app/src/App.js:72-76 | With no processed entry, the archive is empty and the count is 0. |
| `Batch.AllProcessed` | pyrmd-app/src/App.js:72-76 | With every entry processed, the archive holds every entry in order and the count is the batch length. |
| `Batch.MarkedProcessedArchive` | pyrmd-app/src/App.js:47-76 | After marking everything processed, the archive holds every entry's new name and file, in order. The count is the batch length, and some entry is processed exactly when the batch is non-empty. |
| `Batch.TransformThenZip` | pyrmd-app/src/App.js:144-255 | A transform run while its button is offered leaves the ZIP button shown, and every entry with its own download button. |
| `Batch.SingleDownloadMatchesArchive` | pyrmd-app/src/App.js:57-74 | An entry showing a download button saves its new name and original file. That pair is also one of the archive's members. |
| `App.FileExtensionChanger.constructor` | pyrmd-app/src/App.js:5-7 | The component starts with no files, an empty extension and the busy flag off, and satisfies the invariant. |
| `App.FileExtensionChanger.HandleFileSelect` | pyrmd-app/src/App.js:10-22 | The batch is replaced wholesale by the entries of the new selection. The extension and the busy flag are unchanged, and the invariant is kept. |
| `App.FileExtensionChanger.UpdateNewExtension` | pyrmd-app/src/App.js:24-37 | The stored extension is the cleaned input. Every entry is renamed for it and marked unprocessed, and the busy flag is unchanged. |
| `App.FileExtensionChanger.ProcessFiles` | pyrmd-app/src/App.js:39-55 | With an empty extension, nothing changes. Otherwise every entry is marked processed and the busy flag ends up off. The extension is unchanged either way. |
| `App.FileExtensionChanger.ResetApp` | pyrmd-app/src/App.js:92-95 | Afterwards there are no files, the extension is empty and the busy flag is off. |
| `App.FileExtensionChanger.DownloadAllFiles` | pyrmd-app/src/App.js:68-85 | The loop's member list is exactly the archive members of the current batch, and the archive is named `pyrmd-transformed-files.zip`. |
| `App.ScenarioNames` | pyrmd-app/src/App.js:16-33 | `a.txt` has base name `a` and `report` has base name `report`. `pdf` and `.csv` clean to `pdf` and `csv`, and the four new names are as expected. |
| `App.ScenarioRenaming` | pyrmd-app/src/App.js:11-35 | Select `a.txt` and `report`, then rename for any extension. There are two entries, which download as `a` and `report` with that extension and their own files. |
| `App.ArchiveOfTwo` | pyrmd-app/src/App.js:72-76 | Two processed entries give two members, in order. |
| `App.ScenarioSelectRenameArchive` | pyrmd-app/src/App.js:10-85 | Select `a.txt` and `report`, type `pdf`, transform and download all. The archive is `[a.pdf, report.pdf]` with the original files, under the fixed archive name. |
| `App.ScenarioChangeExtension` | pyrmd-app/src/App.js:24-55 | After a transform under `pdf`, typing `.csv` renames the files to `a.csv` and `report.csv`. No ZIP or single download is then offered. |
| `App.ScenarioEmptyBatch` | pyrmd-app/src/App.js:10-200 | An empty selection with an extension typed offers no transform button. Transformed anyway, it gives an archive with no members. |

## Left out

- Rendering, styling and the JSX tree (lines 101-293) are presentation. Only the guards they use are kept: the extension check at 196, the busy check at 200, the ZIP check at 216, the per-entry download check at 255 and the count at 276.
- Browser download plumbing (`URL.createObjectURL`, creating and clicking the anchor, `revokeObjectURL`, lines 58-65 and 82-89) is DOM I/O. A single download is modelled as the pair `AsMember` returns.
- JSZip internals (`new window.JSZip()`, `generateAsync`, lines 69 and 79) are library code. The archive is modelled as the ordered list of `(name, content)` members added to it.
- Two processed entries can share a new name: `a.txt` and `a.doc` both become `a.pdf`. The model adds one member for each. Whether both survive in the real archive is up to JSZip, and the model makes no claim about it.
- `Naming.LastDot` counts characters, while `lastIndexOf` counts UTF-16 code units. The two indices differ for names with characters outside the Basic Multilingual Plane before the dot. The derived strings (`BaseName`, `OriginalExtension`, `NewName`) are the same either way.
- The 800 ms `setTimeout` in `processFiles` (line 45) is left out, and with it any handler running while a transform is pending. `App.FileExtensionChanger.ProcessFiles` is one atomic step: it raises the busy flag, marks the batch processed and lowers the flag. So the race in which the extension or the batch changes during the delay is not modelled. Between two handler calls the busy flag is therefore always off, and `Valid()` says so; the `disabled={isProcessing}` part of `TransformOffered` only matters during the delay.
- React's `useState` and `useRef` mechanics and clearing the file input through `fileInputRef` (lines 96-98) are framework glue.
- File bytes are not modelled: a file is an opaque handle that is never read or altered.
