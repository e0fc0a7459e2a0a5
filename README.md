# clean-big-targets, modelled in Dafny

`clean-big-targets` looks for Rust build directories (`target/`) in the
immediate children of a workspace directory. It measures how many bytes each holds and lists
them largest first with a total, or deletes them. Deletion is either forced,
or limited to the directories the user ticks in a terminal multi-select.

This project models that pipeline over a finite directory tree and proves
what each stage promises:

- `filesystem.dfy` (module `FileSystem`) holds the tree and path lookup.
  - A node is a file with a length, a directory with an ordered listing, or
    something else (a socket, a device, a dangling link).
  - Each listing position may fail to read. A directory may refuse to be
    listed, and a file may refuse its metadata.
  - Paths are canonical sequences of names from the root. The listing order
    is whatever the tree gives.
- `scanner.dfy` (module `Scanner`) is `find_target_dirs`.
  - `Scan` and `ScanEntries` are the specification, read position by
    position.
  - `Candidates` is an independent reference definition of what the scan
    collects.
  - `FindTargetDirs` is the loop, proved equal to `Scan`.
- `sizing.dfy` (module `Sizing`) is `calculate_dir_size`.
  - `SizeOf` and `EntriesSize` are the walk.
  - `Bytes` and `Healthy` are the reference: the bytes reachable under a
    node, and whether every read below it succeeds.
  - `MeasureNode` and `CalculateDirSize` are the loop with its recursion,
    proved equal to the walk.
- `ordering.dfy` (module `Ordering`) is the in-place `sort_by` in `main`.
  - It is a stable insertion sort on an array, proved against the
    functional `SortDesc`.
  - `SortDesc` is in turn proved sorted, a permutation, stable and
    total-preserving.
- `deletion.dfy` (module `Deletion`) is `handle_deletion`, over a `Disk`
  object.
  - The disk holds the set of present paths, a log of removals, and the
    paths whose removal the system refuses.
  - `RemoveEach` and `DeletionRun` specify a run of removals. They give up at
    the first failure and keep what was already removed.
- `driver.dfy` (module `Driver`) is `main`.
  - `Pipeline` specifies the early exits, the filtering of failed sizings,
    the sort, the report with its total, the deletion, and the exit status.
  - `Run` is the imperative driver, proved equal to `Pipeline`.
- `scenarios.dfy` (module `Scenarios`) restates the repository's unit tests
  as facts about the model. It also covers a workspace holding
  `proj1/target` (one 5-byte file), `proj2/target` (one 3-byte file) and
  `proj3` (no `target`), in report mode and in forced delete mode.

Two behaviours of the code are worth stating plainly:

- Interactive deletion removes directories in the order the prompt returns
  their indices.
- The total is computed only in report mode.

The deletion disk is a separate state from the scanned tree. `PathsIn(root)`
is the disk that holds exactly the tree's paths. On that disk,
`Driver.ForcedDeleteRemovesAll` shows that a forced delete removes every
kept directory and exits with SUCCESS. Any other disk models a file system
that changed between the scan and the removals.

## Model

| member | source | states |
|---|---|---|
| Scanner.FindTargetDirs | src/lib.rs:29-55 | the scan loop returns exactly `Scan(root, base)`; `debug` has no effect on the result |
| Scanner.StoppedStays | src/lib.rs:33-43 | once an entry error or a `target` child stops the scan, later entries do not change the result |
| Scanner.ScanUntilDecisive | src/lib.rs:45-51 | before any failing entry or `target` child, the scan has collected exactly the candidates seen so far |
| Scanner.FirstDecisiveEntry | src/lib.rs:32-43 | the first failing entry or `target` child fixes the result: `Err` for the former, `[base/target]` alone for the latter |
| Scanner.ShortCircuit | src/lib.rs:39-43 | a child directory called `target` makes the result exactly `[base/target]`, discarding earlier candidates |
| Scanner.NormalScan | src/lib.rs:45-51 | without a short-circuit, the result is the `child/target` paths of exactly the directory children holding a `target` directory, in listing order |
| Scanner.EntryErrorFailsScan | src/lib.rs:33 | an unreadable entry before any short-circuit fails the scan with no partial result |
| Scanner.BaseErrorFailsScan | src/lib.rs:32 | a base that cannot be resolved or listed fails the scan; a missing base reports not-found |
| Scanner.NonDirectoryIgnored | src/lib.rs:36-38 | a non-directory child neither contributes nor short-circuits, even when called `target` |
| Scanner.EmptyBase | src/lib.rs:30-54 | an empty base directory scans to an empty list, not an error |
| Scanner.NoMatchesScanEmpty | src/lib.rs:45-54 | a base with no `target` child and no child holding one scans to an empty list |
| Scanner.ScanEntriesInvariant | src/lib.rs:32-52 | after any prefix of the listing, every collected path is a `target` directory one or two levels below base, and there are at most as many as directory children |
| Scanner.ScanEntriesPrefixFree | src/lib.rs:32-52 | when the listing repeats no name, the collected paths are distinct `child/target` paths and none lies below another; an early stop returns one path |
| Scanner.ScanPrefixFree | src/lib.rs:29-55 | a successful scan of a listing without repeated names returns paths none of which lies below another |
| Scanner.ScanResultsAreArtifactDirs | src/lib.rs:42-50 | every returned path is an existing directory named `target` at most two levels below base; the count is bounded by the number of child directories |
| Sizing.CalculateDirSize | src/lib.rs:57-76 | the measurement of a path equals `SizeAt`: zero for a missing path or a non-file, non-directory node |
| Sizing.MeasureNode | src/lib.rs:60-75 | the accumulating loop with its recursion returns exactly the walk `SizeOf(n)`, including the first error met |
| Sizing.EntriesSizeAppend | src/lib.rs:61-70 | measuring a listing is additive over any split of it, and the first error in listing order wins |
| Sizing.SizeOfIsBytes | src/lib.rs:57-76 | the measurement succeeds exactly when every read below succeeds, and then equals the sum of the lengths of all reachable files |
| Sizing.EntriesSizeIsBytes | src/lib.rs:61-70 | a listing measures successfully exactly when every entry and every read below them succeeds, and then equals their byte sum |
| Sizing.SizeAtLeaf | src/lib.rs:71-75 | a missing path or a node that is neither file nor directory measures 0; a readable file measures its length |
| Sizing.DirSizeIsSumOfChildren | src/lib.rs:60-70 | a directory measures the sum of its children's measurements; an empty directory measures 0 |
| Sizing.AddFileGrowsSize | src/lib.rs:61-70 | adding a readable file of `len` bytes anywhere in a directory grows its measurement by exactly `len` |
| Sizing.ErrorBelowIsFatal | src/lib.rs:61-68 | any failing listing, entry or metadata read below a directory makes its whole measurement an error |
| Sizing.ChildPathSize | src/lib.rs:63-68 | recursing on a child's path measures the node that the listing yielded for it, when names are unique |
| Ordering.SortBySize | src/main.rs:71 | sorting the vector in place leaves exactly `SortDesc` of its old contents |
| Ordering.InsertLast | src/main.rs:71 | one insertion step moves the element into its stable place among the sorted prefix and leaves the rest untouched |
| Ordering.SortDescCorrect | src/main.rs:71 | the sorted list is a permutation of the measured list, in non-increasing size order |
| Ordering.SortDescStable | src/main.rs:71 | directories of equal size keep their measured order, as `sort_by` is stable |
| Ordering.SortDescPrefixFree | src/main.rs:71 | sorting keeps the rows' paths free of one another, since it only reorders them |
| Ordering.SortDescTotal | src/main.rs:81 | sorting does not change the sum of the sizes |
| Deletion.Disk.RemoveDirAll | src/lib.rs:83 | removal fails when the path is absent or refused; otherwise it removes the path and everything below it and logs it |
| Deletion.RemoveInOrder | src/lib.rs:82-94 | the removal loop returns the run's outcome, leaves the run's present set and logs exactly the run's removals |
| Deletion.HandleDeletion | src/lib.rs:78-140 | the coordinator's result, the disk and the log are those of `DeletionRun` for its mode, terminal state and prompt reply |
| Deletion.RemoveEachOutcome | src/lib.rs:82-94 | a run removes a prefix of its list; it succeeds exactly when it removes all of it; on error the next entry was refused or already gone, and nothing after it was tried |
| Deletion.RemoveEachFrame | src/lib.rs:83 | no removed path was refused; what remains is exactly what was present and lies below none of the removed paths |
| Deletion.AllRemovedWhenOk | src/lib.rs:81-94 | when every removal succeeds, none of the listed paths is left |
| Deletion.RemoveEachSucceeds | src/lib.rs:81-94 | removing paths that are all present, none refused and none below another succeeds and removes every one, in order |
| Deletion.ForcedRemovesInOrder | src/lib.rs:81-94 | forced mode removes a prefix of the list in list order, and succeeds exactly when it removes all of it |
| Deletion.NothingDeletedWithoutSelection | src/lib.rs:96-121 | off a terminal, after a failed prompt, or with an empty selection, nothing is removed; only the failed prompt is an error |
| Deletion.InteractiveRemovesSelection | src/lib.rs:123-136 | interactive mode removes only the selected entries, in selection order, and succeeds exactly when it removes all of them |
| Deletion.DeletionStaysInList | src/lib.rs:81-136 | in either mode every removed path is a listed directory, and every path below none of the removed ones stays |
| Driver.Run | src/main.rs:21-90 | the driver's exit status, report, disk and log are exactly those of `Pipeline` |
| Driver.MeasureAll | src/main.rs:56-68 | the sizing step keeps, in scan order, each scanned path whose measurement succeeds, with its size |
| Driver.SortRows | src/main.rs:56-71 | the collected vector sorted in place equals `SortDesc` of the measured list |
| Driver.MeasuredKeepsExactlySized | src/main.rs:56-68 | a row is kept exactly when its path was scanned and its measurement succeeded with that size; failed ones are dropped |
| Driver.MeasuredPrefixFree | src/main.rs:56-68 | dropping the rows whose sizing failed keeps the paths free of one another |
| Driver.SortedRowsAreScanned | src/main.rs:56-71 | every sorted row is a scanned directory, and every kept row reaches deletion |
| Driver.RowsRemovable | src/main.rs:56-84 | the paths handed to deletion are existing, unrefused, and none lies below another, and every kept row is among them |
| Driver.ForcedDeleteRemovesAll | src/main.rs:84-87 | a forced delete on the disk holding exactly the scanned tree, with no scanned directory refused, removes every kept directory and exits with SUCCESS |
| Driver.EarlyFailure | src/main.rs:28-44 | a missing directory or a failed scan exits with FAILURE before any sizing, report or deletion |
| Driver.NothingFound | src/main.rs:46-49 | an empty scan exits with SUCCESS, with no report and no deletion |
| Driver.ReportMode | src/main.rs:74-83 | report mode deletes nothing, exits with SUCCESS, and reports exactly the kept rows, largest first, with their sum as the total |
| Driver.DeleteMode | src/main.rs:84-87 | delete mode prints no report and exits with FAILURE exactly when deletion returns an error |
| Driver.ExitStatus | src/main.rs:28-89 | the exit status is FAILURE exactly when the directory is missing, the scan fails, or the deletion fails |
| Driver.RemovesOnlyScanned | src/main.rs:74-87 | a run only removes directories the scan returned, and removes nothing in report mode |
| Scenarios.SizingTests | src/lib.rs:150-195 | an empty directory, one 13-byte file, two 5-byte files, and a 3-byte file beside a directory holding 5 bytes measure 0, 13, 10 and 8 |
| Scenarios.ScannerTests | src/lib.rs:198-247 | an empty directory scans to nothing, a lone `project1/target` is found, and a `target` child is returned alone |
| Scenarios.WorkspaceScan | src/lib.rs:217-233 | a workspace with two projects holding `target` and one without scans to the two `target` paths |
| Scenarios.WorkspaceSizes | src/lib.rs:57-76 | the workspace's two `target` directories measure 5 and 3 bytes |
| Scenarios.WorkspaceForcedDelete | src/main.rs:84-89 | a forced delete on the workspace's own disk removes both `target` directories and exits with SUCCESS |
| Scenarios.WorkspaceReport | src/main.rs:56-83 | report mode on the workspace lists proj1's `target` (5) before proj2's (3), with a total of 8, and exits with SUCCESS |

## Left out

- Command-line parsing, with its `.` default and the `CLEAN_BIG_TARGETS_DIR` variable, is not modelled. `Driver.Cli` is the already-parsed record.
- All printed text is not modelled, because it is not observable state:
  - the report table appears only as the `Report` value;
  - size formatting (`humanize_bytes_decimal!`, `format_size`) is left out;
  - the `debug` messages are left out.
  - `format_size` is not part of this model.
- Terminal detection and the multi-select prompt are foreign I/O, so they become inputs.
  - Terminal detection is the `interactive` flag.
  - The prompt is a function from the listed items to a selection or a failure.
  - The prompt is assumed to return only indices of shown items, as the widget does.
- The parallel sizing runs one candidate after another, because the candidates share no state.
- Symlinks and canonicalization are not modelled.
  - Paths are already canonical.
  - Nodes are a finite tree, so there are no cycles and no links to follow.
  - Where the source checks `is_file()` on the path but reads metadata from the directory entry, the two agree in the model.
- Read order is not modelled beyond the order of each listing as the tree gives it.
- Sizing.MeasureNode: recurses on the entry's node rather than on its re-joined path. `Sizing.ChildPathSize` shows the two agree when a listing has no repeated names, as real directories do.
- `remove_dir_all` is atomic in the model: it either removes the whole subtree or fails with nothing removed. Partial removal inside one subtree is not modelled.
- The deletion disk is not derived from the scanned tree. Only on the disk `PathsIn(root)` does the model promise that forced deletion of scanned directories succeeds (`Driver.ForcedDeleteRemovesAll`). On any other disk a removal may find its path already gone, which stands for the file system changing between the scan and the removals.
- Which removals fail is given by the `refused` set of the disk, and by the absence of a path. The concrete OS error kinds are not modelled.
- The byte counters are unbounded, so the 64-bit overflow of `total_size` and of the report total is not modelled. It is unreachable for real disks.
- The test that measures the package's own directory depends on the host, so it is not modelled.
