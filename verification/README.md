# A verified model of the Packwiz manager

The manager keeps Packwiz modpack projects for a game panel. Each project has a working tree that people
edit, and a store of published, numbered releases that game servers and players download. This project
models the code that must not go wrong there, in Dafny, and proves what it keeps:

- **The release store** (`Releases`, `ReleaseSafety`, `ReleaseTheorems`, `LinkSwitch`, `Publisher`, `ReleaseWitness`, `Public`). Publishing,
  rolling back and editing are a state machine whose steps are single filesystem and database operations.
  Any number of clients interleave under the project mutex and SQLite's write lock, and any operation may
  fail. `Publisher` is the Go code statement by statement, each statement one step of the machine.
- **Edits** (`Workspace`, `Folders`). The backup, apply, commit, restore protocol, with folder deletion and
  whole-project replacement as its instances.
- **The metadata files** (`Regex`, `Fields`, `BareFields`, `Quoting`, `Metadata`, `Updates`, `Uploads`, `SideEdit`,
  `SideReading`, `Inventory`). Metadata is printed with Go's `%q` and read with regular expressions. `Regex` gives the
  leftmost-first backtracking semantics of the constructs in use, `Fields` proves what each pattern
  matches, and the rest proves the round trips through printing, parsing, in-place editing and import.
- **The ZIP printer** (`Zip`), byte for byte against a reader of PKWARE's APPNOTE.TXT, sections 4.3.7,
  4.3.12 and 4.3.16.
- **Paths and archives** (`Paths`, `Trees`, `Archive`): the cleaning algorithm, symbolic links, extraction
  under a byte budget.
- **Smaller machines** (`Digest`, `Diff`, `RateLimit`, `Startup`): the content digest, the comparison of two
  revisions, the mutation rate limit, and the startup integration of a server.

`dafny verify dfyconfig.toml` checks everything.

## What the proofs found

The code is modelled as it is. Where a promise fails, a lemma shows the failing case and another, or a
method's contract, gives the exact condition under which it holds.

- A publish that fails between renaming its directory and committing its row leaves a numbered directory
  without a row. The next publish picks the same number, its rename is refused, and no publish of that
  project ever commits again (`FailedInsertBlocks`, `UnrecordedDirectoryBlocksPublishing`). Nothing that was
  recorded is ever damaged (`ReleasesAreImmutable`).
- The link `current` and the current revision can part (`FailedRetryDiverges`). An operation that fails after
  reaching its switch leaves the link as it was, and in agreement if it agreed, exactly under the
  condition `LinkKept` on the old link, the target and the failing operations: the new link could not be
  made; or both renames of `atomicCurrent` failed and there was no link or it could not be removed; or the
  commit failed and the undo worked, or had nothing to change. The next commit repairs the rest
  (`CommitHeals`).
- An edit that fails after removing the working directory cannot be undone, because the backup is deleted
  with the call: where the undo operations work, replacing a project loses its tree exactly when the copy
  does not even create the directory (`ReplaceProject`).
- A publish after a failed undo releases what the edit had left half-applied (`FailedUndoIsPublished`, for
  every such tree; `HalfAnEditDiffers` gives one). A release holds the content of the last completed edit
  exactly if no undo failed since that edit, or the failed undo left the same content
  (`ReleasesHoldFinishedEdits`).
- After changing the side of a metadata file the new side is read back unless an ill-formed `side`
  assignment comes before the well-formed ones (`SideIsReadBack`, `ParsedSideIsTheSide`): with `side = "x"`
  before `side = "client"`, the parsed side is `both` after it was set to `server`
  (`SideIsNotReadBackHere`).
- A file of a modpack is reachable by its project URL unless its path begins with `releases/` or a component
  is filtered (`CurrentRoute`). The same URL for a root `revision.json` serves the manifest (`ManifestUrl`).
- Installing the startup integration over an empty startup command loses it (`OnlyTheEmptyCommandIsLost`).
- The rate limit of 30 a minute lets through 59 in some minute, and never more (`AtMost59PerMinute`,
  `BoundIsReached`).

## Reading the model

Errors are values (`Result`, `Option`, outcome datatypes). Failures of the disk, the database and other
processes are parameters named `faults`. SHA-256 and CRC-32 are function parameters, assumed free of
collisions only where a lemma says so. A string is a sequence of bytes in the release store, the digest and
the archives, and a sequence of Unicode characters in the metadata modules; path handling only looks at
ASCII characters and is used for both. `settled`, `log`, `stray`, `marks` and `faulted` record the run
and influence no step. The refresh of Packwiz is an arbitrary function that may fail and changes no file but
`pack.toml` and `index.toml`.

## Model

| member | source | states |
|---|---|---|
| ReleaseTheorems.LinkAndRevisionAgree | service/internal/publishing/publisher.go:31-99 | In every run of any clients with any failures, whenever the mutex is free and no compensating operation failed since the last commit, `current` names exactly the directory of the row in `current_revision_id`, or there is neither |
| ReleaseTheorems.FailuresLeaveBoth | service/internal/publishing/publisher.go:70-98 | Any stretch of a run without a successful commit leaves the rows, and with working compensation the link, as they were |
| ReleaseTheorems.FailedRetryDiverges | service/internal/publishing/publisher.go:153-157 | From every reachable state about to switch the link, two failing renames end with the link gone and the rows naming a revision |
| ReleaseTheorems.CommitHeals | service/internal/publishing/publisher.go:86-94 | After every commit link and current revision agree, whatever failed before |
| ReleaseTheorems.ReadersFindCompleteReleases | service/internal/publishing/publisher.go:53-84 | At every moment, also in the middle of an operation, what the link names is a complete release: every file, and the sorted manifest with its digest |
| ReleaseTheorems.RevisionsAreNumbered | service/internal/publishing/publisher.go:44-79 | In every reachable state the rows are numbered 1 to n, with pairwise different directories that exist |
| ReleaseTheorems.ReleasesAreImmutable | service/internal/publishing/publisher.go:52-72 | No later step of any client changes a numbered directory or a committed row, failed publishes and clean-up included |
| ReleaseTheorems.ReleasesHoldFinishedEdits | service/internal/projects/manager.go:59-92 | With editors and publishers interleaving, every committed release holds, apart from `pack.toml` and `index.toml`, what the last edit completed before it left, or what a failed undo put there after that edit; so it is the content of the last completed edit exactly if no undo failed since, or the failed undo left the same content |
| ReleaseTheorems.CommitMarksLastEdit | service/internal/publishing/publisher.go:32-57 | What a release is compared with is the working tree at its commit, after every edit completed so far, and what a failed undo had left in it |
| ReleaseTheorems.ReleaseIsItsOwnRefresh | service/internal/publishing/publisher.go:41-94 | Whatever other clients do in between, a publish that refreshes and then commits adds one row, which is current and linked, and its directory holds exactly the tree that this refresh left, `pack.toml` and `index.toml` included |
| ReleaseTheorems.OthersWait | service/internal/projects/manager.go:50-55 | While a client has the mutex, no step of another changes the working tree, the directories, the link or the rows |
| ReleaseTheorems.InterleavingIsInvisible | service/internal/projects/manager.go:50-92 | From the mutex on, the steps an operation takes lead to the same tree, directories, link and rows with any interleaving of other clients as they do alone |
| ReleaseTheorems.OneTransactionAtATime | service/internal/api/api.go:160-173 | In every run at most one client is between its first SQL statement and its commit, editors that wait for the mutex included |
| ReleaseWitness.EditsComplete | service/internal/projects/manager.go:59-80 | From every reachable resting state every edit can complete; its result is then the working tree and the one releases are compared with |
| ReleaseWitness.FailedEditsAreUndone | service/internal/projects/manager.go:81-92 | An edit that fails, whatever it left in the working directory, can be undone without a trace |
| ReleaseWitness.FailedUndoIsPublished | service/internal/projects/manager.go:81-91 | For every starting tree and every half-applied tree with a `pack.toml`, a run in which an edit and its undo fail ends with that half-applied tree as the current release |
| ReleaseWitness.HalfAnEditDiffers | service/internal/projects/manager.go:81-91 | A pair of such trees with different content: an edit that has removed a file when it fails |
| ReleaseTheorems.UnrecordedDirectoryBlocksPublishing | service/internal/publishing/publisher.go:44-72 | Once the next number is taken by a directory without a row, no run ever commits another revision |
| ReleaseTheorems.FailedInsertBlocks | service/internal/publishing/publisher.go:73-84 | One failing SQL operation after the rename leads there |
| ReleaseTheorems.BlockedStays | service/internal/publishing/publisher.go:44-72 | Being blocked is kept by every step of every client |
| ReleaseSafety.StepKeeps | service/internal/publishing/publisher.go:31-201 | Every step of every client keeps the invariant that the results above follow from |
| ReleaseSafety.InitialIsOk | service/internal/projects/manager.go:93-142 | A project as it is created or imported meets the invariant |
| LinkSwitch.LinkKeptExactly | service/internal/publishing/publisher.go:86-98 | The link at the end of an operation that fails is the old one exactly under the stated condition on the old link, the target and what fails |
| Publisher.Publisher.Publish | service/internal/publishing/publisher.go:31-99 | A run of the machine that succeeds exactly when no operation fails, there is a `pack.toml`, no other transaction writes and the directory of the next number is free; then exactly one row with the next number is added and current, the link names its directory, which holds the refreshed tree and its manifest; on errors the rows are as before; the link is as before if the new link could not be made, or if only the commit failed, and in all other cases a stated function of the old link, the number and the faults; no numbered directory changes except that the new one stays exactly if the publish got past its rename |
| Publisher.Publisher.Rollback | service/internal/publishing/publisher.go:166-201 | Succeeds exactly when the number is one of 1 to n, nothing fails and no other transaction writes; then the row of that number is current and the link names its directory; otherwise the rows are as before; the link as for a publish, for every combination of faults; no row is added and no numbered directory changes |
| ReleaseTheorems.RollbackFindsItsRevision | service/internal/publishing/publisher.go:173-190 | In every state that keeps the invariant, a rollback to a number writes exactly if the number is one of 1 to n, and then the row of that number becomes the pending one and its directory the target of the link |
| Publisher.Publisher.CopyTree | service/internal/publishing/publisher.go:100-140 | The loop copies every entry in walking order and lists every file with its hash and size; a failure at any entry leaves what was copied before it |
| Publisher.Publisher.AtomicCurrent | service/internal/publishing/publisher.go:141-158 | Renaming over the link, and once more after removing it; the outcome for every combination of failures |
| Publisher.Publisher.RestoreCurrent | service/internal/publishing/publisher.go:159-165 | The link for every previous link and every combination of failures; rows and directories are untouched |
| Publisher.Publisher.CommitSwitch | service/internal/publishing/publisher.go:86-98 | Succeeds exactly when the switch and the commit work, and then link and rows change together; otherwise the rows stay, and the link is the stated function of the old link, the target and the faults |
| Publisher.Publisher.SealAndPromote | service/internal/publishing/publisher.go:60-72 | The manifest over the copied entries and the rename: refused exactly when writing or renaming fails or the numbered directory exists, and then no numbered directory changes |
| Publisher.AllIsCopied | service/internal/publishing/publisher.go:100-140 | Copying along any walk of the tree gives the tree |
| Public.CurrentServesTheManifest | service/internal/api/public.go:36-46 | Right after the commit of a publish or rollback, the project URL of every file the current manifest lists serves bytes with the listed hash and size |
| Public.CurrentIsServedAtRest | service/internal/api/public.go:36-61 | In every run, whenever the mutex is free and no compensating operation failed since the last commit, project URLs serve the files the current revision lists, and nothing if there is none |
| Public.ReleaseServesTheManifestForever | service/internal/api/public.go:43-45 | The release URL of a listed file serves the same bytes in every later state of every run |
| Public.CurrentRoute | service/internal/api/public.go:36-47 | A valid path is routed to the current release exactly when every component passes the filter and it is not taken for the releases |
| Public.ReachableMeans | service/internal/projects/manager.go:17-17 | Which files the statements about project URLs are about: for every slug a project can have but `blobs`, all valid paths without a backslash or a NUL, except a root `revision.json` |
| Public.RouteWithSlashes | service/internal/api/public.go:26-26 | Any number of slashes before and after a URL makes no difference |
| Public.ManifestUrl | service/internal/api/public.go:46-46 | The project URL of a root `revision.json` serves the manifest of the current release |
| Public.ReleaseRoute | service/internal/api/public.go:43-45 | A release URL leads to the file in the numbered directory |
| Public.BlobRoute | service/internal/api/public.go:33-35 | The URL printed into metadata leads to the blob of its digest, exactly when the file name passes the filter |
| Public.OnlyBlobRoutes | service/internal/api/public.go:29-31 | A URL leads to a blob exactly if it begins with `blobs/sha256`, 64 characters of the stated kinds and a component without a backslash or a NUL |
| Public.SlugsArePublic | service/internal/projects/manager.go:17-17 | Every slug a project can have passes the filter of the handler |
| Public.DigestsArePublic | service/internal/api/public.go:29-30 | So does every digest in hexadecimal, and it does not begin with two dots |
| Public.BlobIsFiled | service/internal/api/public.go:34-34 | The name of a blob is `sha256`, the first two characters of the digest and the digest, exactly unless these two are dots |
| Public.Handle | service/internal/api/public.go:20-62 | The branches and the loop over components answer as the routing function and the opened file say |
| Workspace.Project.MutateAndCommit | service/internal/projects/manager.go:59-92 | Each of the five outcomes exactly in terms of the faults and of what the callback returns and leaves, and for each the tree, the rows and the `.failed` directory: success keeps the callback's tree and rows, an ordinary error the old ones, and the two reported undo errors are the only others |
| Workspace.ReplaceProject | service/internal/api/imports.go:152-167 | For every combination of faults: rows never change on failure, and the old tree is given back exactly when the callback did not run, or the copy created the directory and the undo works; what is left otherwise |
| Folders.RemoveFolder | service/internal/api/folder_delete.go:27-95 | Done exactly when the trimmed value is a safe path below one of the five listed roots and a folder of the tree, the refresh of the tree without it succeeds and no operation fails, and refused exactly when that fails before the edit; when done no non-mod row and no file remains beneath the folder and everything else is as before, sibling names with the same prefix included; on failure the rows, and with working undo the tree, are as before |
| Folders.WithinIsContainment | service/internal/api/folder_delete.go:63-65 | The string test of the SQL statement is component-wise containment, for all strings |
| Folders.NormalizeTreePath | service/internal/api/file_tree.go:39-54 | Accepted exactly when blank or a safe path whose first component is one of the six listed roots |
| Folders.NormalizeFolder | service/internal/api/folder_delete.go:13-25 | Accepted exactly when safe and below one of the five listed roots, the client files not being among them |
| Fields.FindIsFirstField | service/internal/api/import_inventory.go:53-59 | The leftmost match of the string pattern captures exactly the first assignment that begins a line, for every text, escapes and line breaks inside strings included |
| Fields.BodyEnds | service/internal/api/import_inventory.go:23-25 | Where the first-found match of the escaped string body ends |
| Fields.FindIsFirstSection | service/internal/api/import_inventory.go:61-67 | The section pattern captures the text from the first such header to the next line that begins with a bracket |
| BareFields.FindIsFirstBare | service/internal/api/import_inventory.go:26-31 | The leftmost match of the pattern for provider identifiers captures exactly the first assignment of a quoted string or a bare word that begins a line |
| Quoting.UnquotedQuoted | service/internal/api/import_inventory.go:45-51 | Unquoting what `%q` printed gives the text back, for every text and every choice of printable characters beyond ASCII |
| Quoting.CloseHereQuoted | service/internal/api/import_inventory.go:23-25 | A quoted text is one line, and the string pattern ends exactly where it ends |
| Metadata.ParseImportedMetadata | service/internal/api/import_inventory.go:81-128 | The record filled step by step is the function that the following rows, the inventory and the round trips are about |
| Metadata.ParsedDefaults | service/internal/api/import_inventory.go:94-117 | Path, name, file name and side with their defaults, when there is a digest, and that a file without update sections is local |
| Metadata.ParsedUpToOneMebibyte | service/internal/api/import_inventory.go:86-88 | A file is read exactly up to 1048576 bytes of UTF-8 |
| Metadata.FoldsToSha256 | service/internal/api/import_inventory.go:112-116 | Which texts name the hash format, whatever the case of their letters |
| Updates.ModrinthIsReadBack | service/internal/api/import_inventory.go:118-121 | A file with a Modrinth section is from Modrinth, with project and version of its first such section, quoted or bare, whatever stands before it and also beside a CurseForge section |
| Updates.CurseForgeIsReadBack | service/internal/api/import_inventory.go:122-126 | Without a Modrinth section, one with a CurseForge section is from CurseForge, with its project and file |
| Updates.SodiumIsFromModrinth | service/internal/api/import_inventory.go:118-121 | A concrete file of the usual form: provider, project and version |
| Metadata.PrintedIsReadBack | service/internal/api/api.go:178-178 | Name, filename, side and digest of a printed file are read back for every text (quotes, backslashes, line breaks, key-like text), with provider `local`, exactly up to the 1 MiB limit |
| Metadata.PrintedUrlIsReadBack | service/internal/api/api.go:178-178 | So is the address, in the download section |
| Metadata.PrintedText | service/internal/api/api.go:178-178 | The printed file character by character, where no text needs an escape |
| Uploads.UploadJar | service/internal/api/api.go:117-178 | The printed metadata file stands directly under `mods/`, is read back as what was uploaded, with the address of the blob, and points at the uploaded destination exactly when `SafeFilename` leaves the name unaltered |
| Uploads.AcceptedForms | service/internal/api/api.go:122-150 | Which forms are accepted, in terms of the side, the name, where the destination leads from the root, and the uploaded file name |
| Uploads.ClientMetadata | service/internal/api/client_files.go:45-104 | Exactly the targets directly below `client-files/` are accepted whose name has only the listed characters and is none of the listed names; the printed file is read back as a client-side file with the uploaded name and place, and the address of its blob |
| Uploads.InMods | service/internal/api/api.go:127-153 | The metadata path, and that the file name of an accepted destination is never refused |
| SideEdit.ReplaceIsEdited | service/internal/api/items.go:170-173 | Replacing all matches of the pattern is replacing every side line that begins a line |
| SideEdit.SideAgrees | service/internal/api/items.go:170-173 | No replacement turns another line into a side line, or a side line into something else |
| SideEdit.SideLineMeans | service/internal/api/items.go:170-173 | A side line is exactly `side`, white space, `=`, white space and one of the three words in quotes, with only white space up to the end of its line |
| SideReading.EverySideLineReadsTheSide | service/internal/api/items.go:155-179 | After the edit there is a match, and every match of the pattern reads the new side |
| SideReading.RestSurvives | service/internal/api/items.go:170-173 | The text is gaps and well-formed side lines with their white space in turn; the edit keeps the gaps in order and puts `side = "..."` for each side line, or on a line in front if there is none |
| SideReading.SideIsReadBack | service/internal/api/items.go:155-179 | What is read after the edit: the new side if there was no side line or the first assignment was one, and otherwise what was read before |
| SideReading.ParsedSideIsTheSide | service/internal/api/import_inventory.go:81-107 | The parsed file has the new side exactly when no ill-formed assignment with another meaning comes first |
| SideReading.IllFormedComesFirst | service/internal/api/items.go:155-179 | Every text with an ill-formed assignment before a well-formed one still reads the ill-formed value after the edit |
| SideReading.SideIsNotReadBackHere | service/internal/api/items.go:155-179 | One such text, whose parsed side is `both` after it was set to `server` |
| SideReading.LaterEditWins | service/internal/api/items.go:155-179 | Of two edits of a file with a side line the later one counts, as if the earlier had not been made |
| SideReading.MetadataFile.SetMetadataSide | service/internal/api/items.go:155-179 | The file is replaced as a whole exactly for one of the three sides, up to 1048576 bytes and without a failing operation, and otherwise stays |
| Inventory.SyncImportedItems | service/internal/api/import_inventory.go:158-221 | Fails exactly when a metadata file cannot be read; otherwise every metadata file and every plain file has exactly one item, there are no others, and no two items share a target |
| Inventory.ItemsByComponents | service/internal/api/import_inventory.go:129-221 | The item of every file by its path and bytes: which files are mods, which get an item of their own and which none, and its kind by the first folder, its name and its digest |
| Inventory.ReadMetadata | service/internal/api/import_inventory.go:168-190 | The first walk: the parsed files in order, their paths and their destinations |
| Inventory.ItemsCover | service/internal/api/import_inventory.go:158-221 | The classes exclude each other and the two walks together cover the tree |
| Inventory.UploadIsInventoried | service/internal/api/import_inventory.go:158-221 | An uploaded file's metadata becomes one item with every uploaded field, and the file it points at becomes no item of its own |
| Zip.BuildZip | extension/app/PackwizClientExportController.php:71-100 | The loop prints the local records, the directory with their running offsets, and the end record |
| Zip.ZipRoundTrip | extension/app/PackwizClientExportController.php:71-100 | A reader that finds the end record and follows the directory to the local records recovers the files in order, with the given contents and with the given names but for backslashes that became slashes, exactly when every count, size and offset fits its 16 or 32 bits |
| Zip.SequentialScan | extension/app/PackwizClientExportController.php:78-92 | Reading the local records one after another gives the same list and stops where the directory begins |
| Zip.LocalBytes | extension/app/PackwizClientExportController.php:84-86 | A local record, byte by byte |
| Zip.CentralBytes | extension/app/PackwizClientExportController.php:88-89 | A directory entry, byte by byte |
| Zip.EndBytes | extension/app/PackwizClientExportController.php:97-97 | The end record, byte by byte |
| Paths.SafeRelativeIsTheWalk | service/internal/security/path.go:11-20 | Exactly the clean paths that stay inside are accepted, and the result spells the location walked to |
| Paths.SafeRelativeIsCanonical | service/internal/security/path.go:11-20 | The result has only ordinary components, is accepted unchanged, and leads from every start where the input leads |
| Paths.CanonicalFormDecidesEquality | service/internal/security/path.go:11-20 | Two accepted paths have the same form exactly when they name the same location |
| Paths.CleanLoop | service/internal/security/path.go:15-18 | The buffer algorithm of `path.Clean` computes the cleaning by components |
| Paths.SafeFilenameIsOneComponent | service/internal/security/path.go:22-37 | A file name is one ordinary component and is accepted unchanged; exactly the control characters and `<>:"|?*` become dashes and every other character stays |
| Paths.SafeJoin | service/internal/security/path.go:39-57 | On a disk with symbolic links: accepted exactly when the path is safe and no parent is a link or a file; then the parent of the result resolves to the root followed by those components |
| Archive.ExtractZIP | service/internal/files/archive.go:19-80 | Into an empty directory it succeeds exactly on archives within the limits that are extractable (next row); then every named entry is in the result at the place its name leads to, a file with its content and a folder as a folder, and nothing else but the folders on the way; the loop keeps the sum between zero and the budget, so both integer conversions are exact |
| Archive.ExtractableMeans | service/internal/files/archive.go:34-63 | An archive is extractable exactly if every named entry has a safe name and is no link or special file, no file lies where the name of another entry leads or on the way there, and the declared sizes fit the budget |
| Archive.TotalIsTheSum | service/internal/files/archive.go:42-45 | What counts against the budget is the declared size of every named entry |
| Archive.WrittenInFull | service/internal/files/archive.go:67-67 | Every file is written in full exactly unless the limit is the largest 64-bit integer and a file is not empty |
| Archive.ConfiguredLimitWritesInFull | service/cmd/packwiz-manager/main.go:51-51 | The limit the program configures, four times the upload size in 64-bit arithmetic, is never the largest integer, so every extracted file is written in full |
| Archive.ConflictsAreInTheTree | service/internal/files/archive.go:50-63 | An entry conflicts with an earlier one exactly when the tree so far shows it |
| Archive.MkdirAllAdds | service/internal/files/archive.go:50-57 | Making directories fails exactly on a file in the way, and adds exactly the missing folders |
| Trees.SameContentMeans | service/internal/publishing/publisher.go:41-43 | What the statements about content compare: every path but `pack.toml` and `index.toml`, with its entry |
| Digest.SortSorts | service/internal/publishing/publisher.go:60-60 | Sorting keeps the entries and orders their paths |
| Digest.LessIsLexicographic | service/internal/publishing/publisher.go:60-60 | The order of the paths: by the first differing byte, or by length |
| Digest.DigestIgnoresWalkOrder | service/internal/publishing/publisher.go:60-65 | The hashed text depends only on the set of entries |
| Digest.DigestInputDecidesContent | service/internal/publishing/publisher.go:60-65 | Equal hashed texts mean equal entries, with line breaks in paths allowed |
| Digest.EqualDigestsEqualFiles | service/internal/publishing/publisher.go:60-65 | Under a hash without collisions equal digests mean equal file lists, and the other way round |
| Diff.Compare | service/internal/revisions/diff.go:14-37 | Whatever the order of the maps, the three lists hold exactly the added, removed and changed paths, each once |
| Diff.HashesOfLast | service/internal/revisions/diff.go:15-22 | The maps that are compared hold the listed paths with the hash of their last entry |
| Diff.DiffLeadsFromOneToTheOther | service/internal/revisions/diff.go:14-37 | Applying the diff to the first file map gives the second |
| Diff.ListsAreDisjoint | service/internal/revisions/diff.go:14-37 | No path is in two lists, and all are empty exactly when the maps are equal |
| Diff.DiffOfSwapped | service/internal/revisions/diff.go:14-37 | Comparing the other way round swaps added and removed, before and after |
| Diff.DiffIsUniqueUpToOrder | service/internal/revisions/diff.go:24-35 | The order of the maps changes only the order of the lists |
| RateLimit.Limiter.Serve | service/internal/api/api.go:633-660 | One request: reading methods pass; otherwise the new window or count of the named actor, or of `unknown`, and the decision |
| RateLimit.ReadsPass | service/internal/api/api.go:634-638 | What only reads always passes and leaves the table as it is |
| RateLimit.AtMost59PerMinute | service/internal/api/api.go:643-653 | Over every run with clock readings in order, at most 59 mutations of an actor pass in any one minute |
| RateLimit.BoundIsReached | service/internal/api/api.go:643-653 | A run in which 59 pass |
| RateLimit.RefusedMeansThirtyPassed | service/internal/api/api.go:646-653 | A request is refused exactly when it is a mutation and thirty of the same actor's passed since its window began, less than a minute ago |
| RateLimit.WindowsAreAMinuteApart | service/internal/api/api.go:645-647 | An actor's windows begin at least a minute apart |
| RateLimit.ActorsDoNotInterfere | service/internal/api/api.go:639-650 | Taking any request of another actor, or any that only reads, out of the past changes no decision; no name and the name `unknown` are one actor |
| RateLimit.OwnMutationsDecide | service/internal/api/api.go:639-650 | Two runs with the same mutations of an actor decide that actor's next request alike, whatever else they hold |
| Startup.Server.Install | extension/app/PackwizIntegrationController.php:81-139 | Each outcome exactly in terms of the failing steps, and what an install leaves for each, the catch block included |
| Startup.Server.Revert | extension/app/PackwizIntegrationController.php:141-162 | Which outcome and what a revert leaves for every failing step |
| Startup.OriginalIsNeverLost | extension/app/PackwizIntegrationController.php:81-162 | In every run of requests the original command is in force with nothing saved, or saved and in force itself or through the wrapper, whose script ends in a line that executes it, with line breaks turned into spaces |
| Startup.ScriptEndsIn | extension/app/PackwizIntegrationController.php:108-112 | Every written script ends in that line, for every URL and command |
| Startup.RevertBringsTheOriginalBack | extension/app/PackwizIntegrationController.php:141-162 | Any revert that gets through ends with the original and nothing saved, whatever failed before |
| Startup.InstallAndRevert | extension/app/PackwizIntegrationController.php:81-162 | Installing over any command and reverting is such a run, and ends where it began |
| Startup.OnlyTheEmptyCommandIsLost | extension/app/PackwizIntegrationController.php:86-112 | That holds for all runs exactly when the original command is not empty |
| Startup.ScriptPassesTheUrl | extension/app/PackwizIntegrationController.php:109-110 | Whatever the pack URL contains, the shell passes it on to the installer as one argument, the last of its line (POSIX Shell Command Language, section 2.2) |

## Left out

- Packwiz itself, which the manager runs as a subprocess: it is the refresh described above.
- SQLite beyond its write lock: a transaction is a pending copy, and a failed commit commits nothing. The row of an audit event and `updated_at` are not modelled.
- A crash of the process or a power failure: there is no recovery pass in the code, only failing steps of a live process are modelled.
- SHA-256, CRC-32 and deflate; an archive entry's content has its declared length.
- HTTP, multipart and JSON handling, permissions and tokens, and `http.ServeFile`'s own redirects and ranges.
- The network: Modrinth, CurseForge, remote downloads, and the Wings and Panel calls beyond their success or failure.
- Workspace.ReplaceProject: the multipart upload, the rejection of a bad archive before the edit, and the forms are left out; how far the callback gets is a parameter.
- Publisher.Publisher.Publish: runs in one piece; the interleaving with other clients is covered by the state machine whose steps it takes and by `InterleavingIsInvisible`; a client's new identifier is assumed unused.
- Publisher.Publisher.Rollback: the check that the stored directory is below the releases root always holds for rows that `Publish` wrote, so it has no branch.
- ReleaseTheorems.ReleasesHoldFinishedEdits: a root file `revision.json` in the working tree, which the manifest replaces in the release, is taken to be absent from the tree.
- Public.CurrentServesTheManifest: projects do not change their slug, and a first URL component `.`, `..` or `blobs` is not part of the statement, here and in `CurrentIsServedAtRest`.
- Workspace.Project.MutateAndCommit: a removal that fails removes nothing.
- ReleaseTheorems.LinkAndRevisionAgree: over whole runs the condition is that no compensating operation failed since the last commit; the exact condition, on what fails, is given for each operation from every reachable state (`Publish`, `Rollback`), and `InterleavingIsInvisible` carries it over to interleaved clients.
- Paths.SafeJoin: the disk does not change between the check and the use of the result.
- Archive.ExtractZIP: errors of the disk other than the conflicts between entries, and the reading of the archive's directory; `PackRoot` is a read-only check without hard properties.
- Quoting.UnquotedQuoted: an escape of a single byte from 0x80 on, which Go's reader can turn into part of a character, is read as U+FFFD; quoted texts never contain one, and texts that are not valid UTF-8 are not modelled.
- Folders.NormalizeTreePath: trimming and lower-casing treat ASCII only, here and in the other modules.
- SideReading.MetadataFile.SetMetadataSide: a temporary file that a failing rename leaves behind.
- Uploads.UploadJar: the blob, the rows and the writing of the file, which goes through the edit protocol; jar inspection.
- Inventory.SyncImportedItems: errors while walking or hashing, the order of the walk beyond listing each path once, and row identifiers and times.
- Startup.Server.Install: requests for one server run one after the other; the call that tells the manager matters only by its success.
- RateLimit.Limiter.Serve: the table is never pruned; counts are unbounded integers.
- Listing the file tree, item lists, blob de-duplication, the size sum of jar inspection, the dashboard and the installers: they would add easy members only.
- An agreement between item rows and files over all operations: importing from a URL inserts a row without merging an existing one for the same target, so it does not hold.
