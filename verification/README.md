# gitoxide-fs: a verified model

gitoxide-fs presents a git repository as a file system. It keeps five things in agreement: a
working directory, a store of git objects, branch refs with HEAD, a side store for large files,
and the metadata of forks. This project models how they are kept in agreement and proves what the
operations promise, for all inputs and over all runs.

`dafny verify dfyconfig.toml` checks the whole project.

## How it is laid out

| file | what it holds |
|---|---|
| `Prelude`, `Order`, `Paths` | results and errors, the byte order of strings and sorting, `/`-joined paths and their components |
| `Objects`, `Pointer`, `Worktree` | tree and blob objects with canonical entry order; pointer files, printed and parsed; the working directory as an inductive tree and its flat view |
| `TreeSpec`, `Modes`, `Dirtiness`, `Unmarked`, `PartialCommits` | what the two tree builders compute, which entries there are, when the two agree after which changes, and what an incremental build leaves stale |
| `AutoCommit`, `AutoRuns`, `AutoHistory` | batched auto-commit as a state machine, its runs together with the operations that mark nothing, and what they make of refs and log |
| `BlobGc`, `Subtrees`, `FlatTree`, `FuseIo` | the large-file store with its collector on the flat view, moving files and directories, flattening of trees, offset writes |
| `GitDir`, `History` | commits, refs and HEAD; ancestry, the log and racing committers |
| `Requests`, `Backend` | the checks a request passes, and the class `GitBackend` whose methods change the state in place |
| `Merge`, `Forks`, `MergeApply`, `Manager`, `MergeReports`, `MergeRuns` | the three-way merge, the fork protocol, what applying a merge means, the class `ForkManager`, what it reports, and runs of merges |
| `Glob`, `FuseTables` | glob patterns and ignore rules; the inode table and paged directory listings |

Code that changes state step by step is a class or a method with loops (`GitBackend`,
`ForkManager`, `InodeTable`, `ThreeWayMerge`, `Log`, `IsIgnored`, …), proved against a function or
predicate on values; the theorems are about those functions and the runs they generate. Loops over
directory listings and hash maps take their elements in an arbitrary order.

Two hypotheses recur. `Injective` says that commit hashes do not collide. `NoCollision` says that
SHA-256 does not collide on the contents a run uses. Trees and blobs are named by their own
structure, so for them nothing has to be assumed.

## What turned out to be conditional

These are properties the code has only under a condition. Each is proved as an if-and-only-if, or
with its exact condition and an input that breaks it.

- An incremental build equals a full build exactly when no entry it reuses is stale
  (`IncrementalIffNoStale`), that is, when a dirty path leads through everything that is there on both
  sides, of one kind, and changed (`IncrementalIffStaleSeen`, `ChangesSeenIff`).
- A write that changes an existing file through `./a` or `a//b` passes validation, but the commit it
  triggers misses it: it is seen exactly when its path string is canonical (`WriteSeenIffCanonical`).
  A created file is seen already when a dirty path leads through its directory (`CreateSeenIff`), so
  `./x` and `d//x` are seen if they are new (`CreateThroughPathIff`).
- Deletions and renames mark nothing dirty. What the next incremental commit needs to get them right
  is stated exactly, for files and for whole directories (`RemovalSeenIff`, `RenameSeenIff`), and so is
  what keeps them from being lost in a run (`DeletionKeepsPendingIff`, `RenameKeepsPendingIff`,
  `UnmarkedFlushIff`).
- A rename leaks the blob of the file it overwrites when that was the last pointer to it, and a write
  of a large content that the operating system refuses leaves its blob behind (`RenameExactIff`,
  `RefusedWriteExactIff`, and for runs `StepExactIff`).
- A written content reads back exactly when it does not look like a pointer: one that does is stored
  as it is and never comes back, because no stored blob looks like a pointer
  (`PointerShapedReadsBackIff`, `RunReadsBackIff`). A pointer is parsed back unchanged exactly when its
  name is one line that does not end in a carriage return (`RoundTripIff`).
- Creating a fork at a chosen commit, or abandoning one, keeps merge bases sound exactly under the
  conditions of `TrackSoundIff` and `AbandonSoundIff`.
- Forks merge one after the other without conflicts exactly when no two of them clash
  (`AllConflictFreeIff`). Committed forks hold the metadata file as it was on disk, and two of them clash
  on it exactly when neither kept what the fork point has there, and the fork point tracks the file or
  they hold different contents (`MetadataClashIff`). So forks created together and then committed, which
  hold one content, do not clash there only while their fork point does not track the file or has that
  very content. The first applied merge makes the parent track it (`MergeTracksMetadataIff`); from then
  on equal edits of it are edits of a tracked file on both sides and stop the second merge
  (`MetadataClashes`). Off that file nothing else can stop the run (`OnlyMetadataStops`).
- An applied merge writes and removes files without a look at the blob store. It keeps pointers resolvable
  exactly when the blobs of the pointers it brings are still stored, and the store exact exactly when
  besides no blob lost its last pointer to it (`MergeResolvableIff`, `MergeExactIff`).
- A merge commit scans the directory, and `checkout_branch` leaves other forks' files there: the commit
  is the merge exactly where the directory shows nothing else (`MergeCommitMeansMergeIff`), and the merge
  into what was shown exactly when the fork left alone what the parent dropped and the directory still
  shows (`StepFilesIff`).
- Identical edits of one file on both sides count as a conflict, identical additions and deletions do not
  (`EqualSidesConflictIff`). Under `Rebase` conflicts are committed over and reported as none
  (`RebaseHidesConflict`). A three-way merge that stops on conflicts marks the
  fork as merged all the same (`MarkMeansMergedIff`, `MarkedButNotMerged`).
- The ref is updated after the lock is released. A late update keeps the tip it replaces exactly when
  that tip is the new commit, the commit that was read, or an ancestor of it
  (`LateUpdateKeepsTipIff`); updates that check this first lose nothing
  (`GuardedUpdatesLoseNothing`), and the code, which does not, can lose a commit
  (`InterleavedUpdateLoses`).
- A rename onto a path the inode table knows breaks the inverse (`RenameInverseIff`).

Where code and documentation disagree the model follows the code. The doc comment of `is_ignored`
(`src/git.rs:1835-1838`) says that `.gitignore` negation can take back a configured pattern; the early
return at `src/git.rs:1841-1843` prevents it, and `IsIgnored` says so. The comment in
`is_ignored_by_config` (`src/git.rs:1910-1911`) says that a plain name matches if any component equals
it; the last test of `src/git.rs:1917-1920` matches more, as `PlainNameIff` says exactly and
`PlainNameExample` shows.

## Model

| member | source | states |
|---|---|---|
| `Paths.JoinInjective` | src/git.rs:1136-1140 | joining directory and name with `/` loses nothing: valid component lists with one string are the same list |
| `Paths.DirtyChildIsNextComponent` | src/git.rs:1232-1257 | the string-prefix computation names exactly the next component of a dirty path below the directory, and nothing for paths elsewhere |
| `Objects.SortIsCanonical` | src/git.rs:1210-1212 | whatever order the directory was read in, sorting its entries gives the one tree of that name-to-entry map |
| `Objects.TreeOfInjective` | src/git.rs:1210-1215 | directories with different entries have different trees |
| `Objects.TreeOrderIff` | src/git.rs:1210-1212 | the entries of a tree are by name, a directory as if its name ended in `/` |
| `TreeSpec.IncrementalIffNoStale` | src/git.rs:1223-1392 | for any previous tree, dirty set and depth, the incremental tree is the full tree if and only if no reused entry is stale |
| `TreeSpec.CoveredIffNoStale` | src/git.rs:1307-1321 | against the full tree of an older directory, staleness is exactly a change of some child that no dirty path leads to |
| `TreeSpec.IncrementalRefinesFull` | src/git.rs:1223-1392 | incremental refines full: built against the full tree of an older directory, both trees agree if and only if the dirty paths cover the changes |
| `TreeSpec.PointerisedSlot` | src/git.rs:1172-1178 | a build that moved large files to the blob store leaves a directory whose next full build is the same tree |
| `TreeSpec.IncrDiskTree` | src/git.rs:1223-1392 | after an incremental build a full build finds the tree it would have found before |
| `Modes.EntryIff` | src/git.rs:1106-1216 | a full tree has an entry for exactly what is on disk, not below a `.git` and not an ignored file or link, with the mode of its kind and executable bit |
| `Modes.EntryContent` | src/git.rs:1396-1464 | it holds a link's target, a file's content up to the threshold, and a pointer to the hash of a larger one |
| `Modes.CommittedIsOnDisk` | src/git.rs:1172-1178 | after a full build each entry holds the bytes that are on disk then, pointers included |
| `Modes.DirtyIsOnDisk` | src/git.rs:1223-1392 | after an incremental build so does the entry of each file that a dirty path leads to |
| `Modes.ChmodSeenIff` | src/git.rs:1445-1446 | changing only the executable bit of a tracked file changes the full tree, and the incremental commit sees it if and only if a dirty path leads to the file |
| `Dirtiness.IncrementalIffStaleSeen` | src/git.rs:1223-1392 | for any previous tree, the incremental tree is the full tree if and only if a dirty path leads through every path whose previous entry may be reused and is wrong |
| `Dirtiness.ChangesSeenIff` | src/git.rs:1239-1257 | whatever and however much changed since a full build, the incremental tree is right if and only if a dirty path leads through every path that is there on both sides, of one kind, with another entry |
| `Dirtiness.PlacesSeenIff` | src/git.rs:1239-1257 | if only two places changed, only what lies on the way to them has to be seen |
| `Unmarked.RemovalSeenIff` | src/git.rs:702-720 | the incremental commit after an unmarked removal of a file or directory is right if and only if builds had no entry for it, or it lay at the root, or a dirty path leads through its directory |
| `Unmarked.DeletionSeenIff` | src/git.rs:702-720 | for a tracked file: exactly when the incremental commit after its unmarked deletion still drops it |
| `Unmarked.OverwriteSeenIff` | src/git.rs:646-652 | a changed tracked file is picked up exactly when a dirty path leads to it |
| `Unmarked.WriteSeenIffCanonical` | src/git.rs:338-377 | a write that changes an existing tracked file is picked up by the commit it triggers if and only if the path string has no empty or `.` component |
| `Unmarked.PutSeenIff` | src/git.rs:1307-1377 | whatever the arrival of a file or a directory changes and whatever directories come with it, the next incremental commit sees it if and only if no entry changed or a dirty path leads through all of its path that existed |
| `Unmarked.CreateSeenIff` | src/git.rs:1307-1377 | a created file is seen if and only if it lies at the root or a dirty path leads through its directory |
| `Unmarked.CreateThroughPathIff` | src/git.rs:646-652 | a file created through a path string is seen by the commit it triggers if and only if the string starts with its directory's own components |
| `Subtrees.MovedLookup` | src/git.rs:791-815 | where every path is after a rename of a file or a directory: what was at or below the old place is at or below the new one, directories lead to both, all else is as it was |
| `Subtrees.MovedLeaves` | src/git.rs:791-815 | in the flat view a renamed directory takes along exactly the files below it |
| `Subtrees.CanMoveIff` | src/git.rs:791-815 | an entry can be renamed if and only if it exists, does not move into itself, what is at the new place gives way, and no file is in the way above it |
| `Unmarked.RenameSeenIff` | src/git.rs:791-815 | the exact dirty paths with which the incremental commit after an unmarked rename, of a file or a directory, tracked or ignored, equals a full one, wherever the two places meet |
| `PartialCommits.IncrEntry` | src/git.rs:1307-1377 | every entry of an incremental tree, at any depth, is the previous one, the one a full build makes, or that of a directory rebuilt the same way |
| `PartialCommits.PartialStale` | src/git.rs:1534-1567 | committing any paths makes nothing stale that was not |
| `AutoCommit.FlushSyncsIff` | src/git.rs:676-685 | a flush leaves HEAD's tree equal to a full rebuild, before and after the build moved large files, if and only if pending paths lead through everything stale, or nothing is pending and HEAD's tree was right |
| `AutoCommit.CommitIsOnHead` | src/git.rs:1489-1502 | a full commit is one new commit of the full tree on HEAD's commit; HEAD's branch, or a detached HEAD, moves to it, and no other ref, commit or pending path changes |
| `AutoCommit.IncrementalIsOnHead` | src/git.rs:1534-1567 | so is a commit of given paths, with the incremental tree against HEAD's, or the full tree if there is no commit or no path |
| `AutoCommit.FlushCommitsIff` | src/git.rs:676-685 | so is a flush, which leaves nothing pending and lists the pending paths in its message; with nothing pending it changes nothing |
| `AutoCommit.CommaJoinedAppend` | src/git.rs:659-659 | the message lists the paths in the order they came in |
| `AutoCommit.WriteCommitsIff` | src/git.rs:646-670 | an accepted write commits everything pending at once if nothing is debounced or the batch is full, and then nothing is pending; otherwise it only appends its path; with auto-commit off or an ignored path it touches neither commits nor pending paths |
| `AutoCommit.WriteSyncs` | src/git.rs:656-670 | if it commits, and all that was stale was pending, HEAD's tree is then the full tree of the directory |
| `AutoCommit.WriteKeepsMode` | src/git.rs:636-637 | a write keeps the executable bit of the file it replaces, sets none on a new one, and changes no other file |
| `AutoCommit.WriteKeepsPending` | src/git.rs:609-673 | every accepted write, whatever it commits, keeps all that is stale pending |
| `AutoCommit.IncrementalKeepsPending` | src/git.rs:1534-1567 | so does a commit of any given paths, pending or not |
| `AutoRuns.DeletionKeepsPendingIff` | src/git.rs:702-720 | a deletion does if and only if builds had no entry for the file, or something is pending and leads through its directory unless HEAD's tree has no such directory |
| `AutoRuns.RenameKeepsPendingIff` | src/git.rs:791-815 | a rename does if and only if it changes no entry, or something is pending and leads through what became stale on the way to the two places or at the new one |
| `AutoRuns.EventKeepsPendingIff` | src/git.rs:609-815 | every event of a run, checkouts included, keeps all that is stale pending if and only if it heeds these guards |
| `AutoRuns.UnmarkedFlushIff` | src/git.rs:676-815 | the flush right after a deletion or rename is a full rebuild if and only if it heeded its guard |
| `AutoRuns.AutoCommitLosesNothing` | src/git.rs:609-815 | from a repository without a commit or in agreement with its directory, after any run of writes, truncations, deletions, renames, checkouts, flushes and commits that heed their guards, under any debounce and batch settings, a flush makes HEAD's tree a full rebuild unless there is neither commit nor pending path; without renames and checkouts each differing path is pending |
| `AutoHistory.CommittedIsStep` | src/git.rs:1489-1567 | every such commit is a commit-on-HEAD step of the fork protocol |
| `AutoHistory.LogGrows` | src/git.rs:1652-1681 | after a new commit the log lists it and then what it listed before |
| `AutoHistory.EventAdvances` | src/git.rs:609-815 | no event loses a commit: every ref keeps what it reached, and so does HEAD unless it is a checkout |
| `AutoHistory.RunAdvances` | src/git.rs:609-815 | over any run at all every commit stays and every branch keeps all it ever reached |
| `Pointer.ParsePrinted` | src/blobstore.rs:25-72 | parsing a printed pointer gives its hash and size back for any name, and of the name its first line |
| `Pointer.RoundTripIff` | src/blobstore.rs:25-72 | parsing inverts printing if and only if the name is one line not ending in a carriage return |
| `Pointer.StoredPointer` | src/git.rs:469-485 | a content that was replaced names its own hash and size |
| `Pointer.StoredTwice` | src/git.rs:469-485 | pointerising twice is pointerising once, under any file name |
| `Pointer.StoredIff` | src/git.rs:469-485 | a content stays as it is if there is no threshold, it does not exceed it or looks like a pointer; otherwise a pointer to its hash, size and file name stands in for it |
| `Pointer.PrintedText` | src/blobstore.rs:25-31 | the four lines of a pointer file |
| `Pointer.DecimalIsDecimal` | src/blobstore.rs:25-31 | its size is written in decimal without a leading zero |
| `BlobGc.StepKeeps` | src/git.rs:609-815 | every write, refused write, deletion, file or directory rename and build keeps all pointers resolvable and acts on what users see as on plain files |
| `BlobGc.MoveDirKeeps` | src/git.rs:791-815 | moving a directory moves exactly what users see in it, and every pointer still resolves |
| `BlobGc.PointersInvisible` | src/git.rs:469-588 | over any run the files read as if every content had always been stored in place |
| `BlobGc.SizesAreLengths` | src/git.rs:909-919 | in every state of such a run the reported size is the length read back |
| `BlobGc.WriteStoresIff` | src/git.rs:469-485 | after a write up to the threshold the file has the content and no blob was added; after a larger one it has a pointer to the hash, and that hash alone was added to the store |
| `BlobGc.StoreIsExact` | src/git.rs:487-542 | over any run of operations that heed the guard of `StepExactIff` the store holds exactly the hashes that pointer files on disk name |
| `BlobGc.StepExactIff` | src/git.rs:609-815 | from an exact store an operation leads to an exact one if and only if it is no rename over the last pointer to a blob and no refused write of a new large content |
| `BlobGc.PointerShapedReadsBackIff` | src/git.rs:469-472 | a written content reads back if and only if it does not look like a pointer |
| `BlobGc.RunReadsBackIff` | src/git.rs:469-588 | so it is after any run from an empty store, because no step ever stores a blob that looks like a pointer |
| `BlobGc.RenameExactIff` | src/git.rs:791-815 | a rename keeps the store exact if and only if it does not overwrite the last pointer to a blob |
| `BlobGc.RefusedWriteExactIff` | src/git.rs:636-637 | a write the system refuses keeps the store exact if and only if its content was small or already stored |
| `FlatTree.FlattenInvertsBuild` | src/git.rs:1798-1829 | the flattened tree of a working directory has exactly its visible, not ignored leaves, each under its joined path with its stored content |
| `FlatTree.BuildIsStep` | src/git.rs:1172-1178 | seen file by file, both builders only move large files to the store, and store exactly what they moved |
| `FlatTree.ScanFindsReferences` | src/git.rs:498-542 | the recursive directory scan finds exactly the references of the flat view |
| `FuseIo.Splice` | src/fs.rs:518-530 | extending and overwriting the buffer in place gives the zero-filled splice of the data at the offset |
| `FuseIo.ReadAfterWrite` | src/fs.rs:482-530 | what was written is read back, and ranges before and after it read as before |
| `FuseIo.ReadAtBytes` | src/fs.rs:482-488 | a read returns the bytes from the offset on, as many as were asked for or as there are |
| `FuseIo.ConsecutiveReads` | src/fs.rs:482-488 | two reads, one after the other, are one read of both sizes |
| `FuseIo.ResizedIs` | src/git.rs:990-996 | cutting keeps the front and growing appends zeros |
| `FuseIo.SplicedIs` | src/fs.rs:518-530 | a write keeps what is before its offset, growing the file up to it, and what is after its data |
| `FuseIo.CallsActOnByteArrays` | src/fs.rs:491-539 | for any threshold and any run of offset writes, truncations, renames and commits the files hold what zero-filled byte arrays would; truncating an absent file fails |
| `History.Log` | src/git.rs:1652-1681 | the log terminates and lists the first-parent chain from HEAD, or its first entries |
| `History.FirstParentsChain` | src/git.rs:1671-1675 | the specified chain follows first parents from the start to a root |
| `History.LimitedIs` | src/git.rs:1663-1667 | with a limit the log has the newest entries, as many as that or as there are |
| `History.PathsGoBack` | src/git.rs:1589-1625 | a commit is never among its own proper ancestors: parent paths run back in storage order |
| `History.RacesStayGrounded` | src/git.rs:1489-1502 | under any interleaving of commits, merges, late ref updates and checkouts, parents were stored before children, HEAD names stored commits only, and goes on naming one once it does |
| `History.UpdateKeepsTipIff` | src/git.rs:404-421 | moving a ref to a pending commit keeps its old tip reachable if and only if the tip is that commit or reachable from one of its parents |
| `History.LateUpdateKeepsTipIff` | src/git.rs:1534-1567 | a thread that committed on HEAD and moves the ref after any other steps keeps the tip it finds if and only if that is its own commit, or the commit it had read or an ancestor of it |
| `History.StepAdvancesIff` | src/git.rs:1489-1502 | a step keeps everything every branch reached if and only if it is no ref update away from a tip the new commit does not reach |
| `History.GuardedUpdatesLoseNothing` | src/git.rs:1489-1502 | if every update checks that first, no commit is lost under any interleaving |
| `History.InterleavedUpdateLoses` | src/git.rs:1534-1567 | the code does not check: from any quiet state two racing commits exist after which the branch no longer reaches the first |
| `Requests.ValidatedPath` | src/git.rs:338-377 | what passes validation resolves to names a directory can hold |
| `Requests.CanonicalResolves` | src/git.rs:311-317 | a canonical string names exactly the components it is made of |
| `Requests.WriteAcceptedIff` | src/git.rs:609-637 | a write through a canonical path is accepted if and only if the backend is writable, the path is short enough, not blank and not internal, its directory exists, and a file or nothing is there |
| `Requests.ReadAcceptedIff` | src/git.rs:568-588 | a read if and only if the path is permitted, not internal and that of a file |
| `Requests.DeleteAcceptedIff` | src/git.rs:702-720 | a deletion if and only if besides the backend is writable; links can be deleted |
| `Requests.RenameAcceptedIff` | src/git.rs:791-815 | a rename if and only if the backend is writable, both paths are permitted, and the entry can be moved or is already there and shows no entries |
| `Requests.Refused` | src/git.rs:330-354 | a path with a component `..` is refused by all of them, and a read-only backend refuses all but reading |
| `Requests.ValidationErrors` | src/git.rs:338-377 | which error validation finds first |
| `Requests.InternalDenied` | src/git.rs:609-615 | canonical paths below `.git` are denied |
| `Requests.DirectoryAnswer` | src/git.rs:624-627 | directories are no files |
| `Requests.MissingAnswer` | src/git.rs:628-635 | what is missing is not found, unless a file stands where a directory is needed |
| `Backend.WriteFileIsStep` | src/git.rs:609-673 | an accepted write through a canonical path goes to the components of that path and is an event of the auto-commit runs; a refused one changes no file |
| `Backend.TruncateFileIsStep` | src/git.rs:990-996 | so is a truncation of what was read |
| `Backend.RenameIsStep` | src/git.rs:791-815 | so is an accepted rename, through any path strings |
| `Backend.DeleteIsStep` | src/git.rs:702-720 | so is an accepted deletion |
| `Backend.MoveIsStep` | src/git.rs:791-815 | on disk a rename of a file or directory is a rename or move of the runs that keep the blob store exact |
| `Backend.TruncateInputIff` | src/git.rs:990-996 | a truncation starts from what a read of the same path returns, and fails where there is none |
| `Backend.WriteIsStep` | src/git.rs:636-644 | however the path is spelled, what a write does on disk is a write of the runs that keep the blob store exact |
| `Backend.GitBackend.MaybePointerize` | src/git.rs:469-485 | pointer-shaped and small contents stay; a large one is stored and replaced by its pointer |
| `Backend.GitBackend.BuildEntryFromWorkdir` | src/git.rs:1396-1464 | one leaf: no entry if ignored, else its mode and stored content, with objects and blobs gained |
| `Backend.GitBackend.BuildTreeFromWorkdir` | src/git.rs:1106-1216 | in any read order, returns the full tree, leaves the directory pointerised and stores exactly the tree's objects and the moved contents |
| `Backend.GitBackend.CollectDirtyChildren` | src/git.rs:1235-1256 | the collected names are exactly those some dirty path runs through |
| `Backend.GitBackend.BuildTreeIncremental` | src/git.rs:1223-1392 | in any read order, returns the incremental tree, and every object of that tree is in the store |
| `Backend.GitBackend.Commit` | src/git.rs:1489-1502 | commits a full build on HEAD's commit; the store stays complete for every commit |
| `Backend.GitBackend.CommitIncremental` | src/git.rs:1534-1567 | commits against HEAD's tree, or a full build without a parent or dirty paths |
| `Backend.GitBackend.FlushPendingAutoCommit` | src/git.rs:676-685 | drains the pending paths into one commit, and does nothing when there are none |
| `Backend.GitBackend.RepoReferencesBlobInDir` | src/git.rs:498-542 | in any read order, finds a reference if and only if there is one |
| `Backend.GitBackend.CleanupBlobIfOrphaned` | src/git.rs:487-492 | deletes the blob exactly when no visible pointer file names it |
| `Backend.GitBackend.ReadFile` | src/git.rs:568-588 | each refused case, and otherwise the bytes behind the pointer or in the file |
| `Backend.GitBackend.WriteFile` | src/git.rs:609-673 | each refused case; otherwise the new directory, the collected blob, the pending list and the commit it triggers |
| `Backend.GitBackend.TruncateFile` | src/git.rs:990-996 | a write of the content cut or zero-filled to the size |
| `Backend.GitBackend.DeleteFile` | src/git.rs:702-720 | removes the file, collects its blob if nothing else names it, and leaves the pending list alone |
| `Backend.GitBackend.Rename` | src/git.rs:791-815 | each refused case; otherwise the file moves over whatever file was there, or the directory over an empty one or to a free place, and blobs and the pending list stay as they were |
| `Backend.GitBackend.CreateMergeCommit` | src/git.rs:2133-2149 | commits a full build of the directory with the two given parents on HEAD; the parents are not looked up, and stored ones keep the state valid |
| `Merge.ChooseMeetsSpec` | src/fork.rs:690-828 | the branches for one path give the value, the conflict and the count that the symmetric specification asks for |
| `Merge.ThreeWayMerge` | src/fork.rs:670-832 | in any map order: the merged map, exactly the clashing paths as conflicts in strict path order, and the number of paths not equal in all three |
| `Merge.ConflictsUnique` | src/fork.rs:674-688 | the specification leaves one conflict list: it cannot depend on iteration order |
| `Merge.MergeUnits` | src/fork.rs:695-828 | an unchanged side yields the other one without conflicts, and two equal sides stay |
| `Merge.EqualSidesConflictIff` | src/fork.rs:711-731 | two equal sides conflict on a path if and only if the strategy reports conflicts and both edited a file of the base |
| `Merge.ClashIff` | src/fork.rs:711-828 | two sides clash if both changed the path, and not alike unless both edited a file of the base |
| `Merge.StrategyDecides` | src/fork.rs:711-828 | on a clash `Ours` leaves ours and `Theirs` theirs without a conflict; the others report one and keep our file unless the fork deleted it |
| `Merge.ReportedConflict` | src/fork.rs:711-828 | a reported conflict shows the three contents of a clashing path, and its kind says which of them there are |
| `Merge.ChangedIff` | src/fork.rs:690-828 | a path counts as changed if one side is not as the base |
| `Merge.OursIsTheirsSwapped` | src/fork.rs:695-828 | preferring ours is preferring theirs with the sides exchanged, in map and count |
| `Merge.AllConflictFreeIff` | src/fork.rs:400-502 | forks of one point merge one by one without any conflict if and only if none clashes with the parent or with another one |
| `Merge.MergeAllOverlays` | src/fork.rs:400-502 | merging such forks one by one leaves each path as a fork that touched it has it, under any strategies |
| `Merge.MergeOrderIrrelevant` | src/fork.rs:400-502 | in any order and under any strategies such forks, identical additions and deletions included, merge without conflict to the same tree |
| `Forks.TrackSoundIff` | src/fork.rs:219-253 | tracking a fork at a commit keeps merge bases sound if and only if the commit is stored, and is an ancestor of the parent's tip or the fork is its own parent |
| `Forks.AbandonSoundIff` | src/fork.rs:506-529 | abandoning a fork keeps merge bases sound if and only if it is no other fork's parent |
| `Forks.CreateForkIff` | src/fork.rs:176-215 | a fork is created if and only if HEAD is on a branch with a commit and the name is free; it starts at that branch's tip, and HEAD, commits, other refs and other forks stay |
| `Forks.CreateForkAtIff` | src/fork.rs:219-253 | one at a commit starts at the given id |
| `Forks.CreateNestedForkIff` | src/fork.rs:256-304 | a nested one starts at the tip of the parent fork's branch, and only under a fork that is not merged |
| `Forks.FreshForkMergesToNothing` | src/fork.rs:400-435 | a fork that was just created merges without conflict to the parent's own files |
| `Forks.AbandonIff` | src/fork.rs:506-529 | abandoning drops the fork's branch and entry and nothing else |
| `Forks.ForkNextSound` | src/fork.rs:176-503 | every operation keeps each fork's branch name, its ref, and its fork point an ancestor of both tips |
| `Forks.MergeBaseSound` | src/fork.rs:406-435 | in every state reached by such operations each fork's stored fork point is a common ancestor of its own and its parent's tip |
| `Forks.MergedStays` | src/fork.rs:413-418 | a fork marked merged stays so until abandoned, and meanwhile refuses merging and nesting |
| `MergeApply.MergeCommitHolds` | src/fork.rs:458-486 | path by path, the flattened merge commit is the merge, and beside it whatever else the directory showed and the parent did not have |
| `MergeApply.MergeCommitMeansMergeIff` | src/fork.rs:458-486 | the commit means the merge on a path if and only if the merge or the parent has the path or the directory shows nothing there |
| `MergeApply.MergeKeepsModes` | src/fork.rs:462-466 | a merged file keeps the executable bit of the file on disk and has none where there was no file |
| `MergeApply.ScanIsOrdinary` | src/git.rs:1106-1216 | everything a scan commits is canonical, visible, not ignored and small enough to be committed again as it is, links with long targets apart |
| `MergeApply.MergedReadsIff` | src/fork.rs:462-466 | a file that a merge wrote reads back if and only if it is no pointer or the blob it names is still stored |
| `MergeApply.MergeResolvableIff` | src/fork.rs:462-480 | an applied merge keeps every pointer resolvable if and only if the store has the blobs of the pointers it brings |
| `MergeApply.MergeExactIff` | src/fork.rs:462-480 | it keeps the store exact if and only if those are stored and each stored blob is still named by a file that it brings or leaves alone |
| `Manager.ForkManager.Persist` | src/fork.rs:597-610 | the metadata file holds the current forks, or nothing was written |
| `Manager.ForkManager.CreateFork` | src/fork.rs:176-215 | each refusal changes nothing; otherwise a branch at HEAD's commit, tracked and persisted |
| `Manager.ForkManager.CreateForkAt` | src/fork.rs:219-253 | the same at a given commit |
| `Manager.ForkManager.CreateNestedFork` | src/fork.rs:256-304 | the same on the tip of an unmerged fork |
| `Manager.ForkManager.AbandonFork` | src/fork.rs:506-529 | drops the branch and the entry, or refuses and changes nothing |
| `Manager.ForkManager.CanMerge` | src/fork.rs:532-565 | answers yes exactly when merging now would find no conflict, and fails exactly as the merge would |
| `Manager.ForkManager.CommitMerge` | src/fork.rs:458-486 | after the merge commit each path holds the merge, is gone if the merge dropped it, or is as before; a file that cannot be written stops it with only HEAD and files moved |
| `Manager.ForkManager.MergeForkWithStrategy` | src/fork.rs:400-503 | refusals, the conflict report that moves no ref and only writes the metadata, or the applied merge with its commit and counts |
| `Manager.ForkManager.MergeFork` | src/fork.rs:390-392 | the same under the three-way strategy |
| `Manager.MergeIsStep` | src/fork.rs:400-503 | every way a merge can end is a step of the fork protocol |
| `Manager.MergeKeepsSound` | src/fork.rs:400-503 | a merge keeps every tracked fork's merge base sound, however it ends |
| `Manager.ReportsParentTip` | src/fork.rs:439-502 | the commit a merge reports is the parent's tip afterwards: the merge commit on both old tips, or the old tip if it stopped on conflicts, and then no ref moved |
| `Manager.ReportedCommitHoldsMerge` | src/fork.rs:458-502 | the commit a successful merge of scanned trees reports flattens, path by path, to the three-way merge of the three trees, and elsewhere to what the directory showed |
| `MergeReports.MarkMeansMergedIff` | src/fork.rs:439-456 | the work of a fork marked merged is in the parent branch if and only if the merge was applied or it was there before |
| `MergeReports.ClashingReached` | src/fork.rs:176-215 | from an empty repository: commit, fork, edit and commit a file on the parent, check out the fork, edit and commit it there; every commit a scan with the metadata on disk |
| `MergeReports.RebaseHidesConflict` | src/fork.rs:437-502 | in the state this reaches, `Rebase` commits over the conflicting edit without reporting it |
| `MergeReports.MarkedButNotMerged` | src/fork.rs:439-456 | the same fork, marked merged by a three-way merge with none of its work in the parent |
| `MergeReports.StoppedOutcome` | src/fork.rs:439-456 | that three-way merge does end so: a full outcome, with its one conflict, from the directory the run leaves |
| `MergeReports.RebasedOutcome` | src/fork.rs:458-502 | that rebase does go through from there: a full outcome, with the files it writes and commits |
| `MergeRuns.StepFilesIff` | src/fork.rs:458-486 | the files an applied merge leaves in the parent, off the metadata, are the fork merged into what parent and directory showed if and only if the fork left alone every file of the fork point that the parent dropped and the directory still shows, or its version is preferred |
| `MergeRuns.RunMerges` | src/fork.rs:400-503 | over a run of applied merges, each against the tip the one before made, the parent's files off the metadata are the forks merged into one map, leftovers of the directory included |
| `MergeRuns.InputPartsIff` | src/fork.rs:406-435 | a merge works on the trees of the fork point, the parent's tip and the fork's tip |
| `MergeRuns.OnlyMetadataStops` | src/fork.rs:439-456 | in such a run the next merge is free of conflicts if and only if it is so on the metadata file, or its strategy reports none |
| `MergeRuns.ManagedOrderIrrelevant` | src/fork.rs:400-503 | two such runs over the same forks in different orders, under any strategies, leave the same files in the parent off the metadata |
| `MergeRuns.MetadataIsCommitted` | src/fork.rs:597-610 | a scan of the directory takes the metadata file in as it was persisted |
| `MergeRuns.MetadataClashIff` | src/fork.rs:597-610 | two committed forks clash on the metadata if and only if neither kept the fork point's, and the fork point tracks the file or they hold different contents |
| `MergeRuns.MergeTracksMetadataIff` | src/fork.rs:483-486 | an applied merge makes the parent track the metadata if and only if the parent did not, or the merge of the file keeps one |
| `MergeRuns.MetadataClashes` | src/fork.rs:597-610 | forks that clash there never both merge without a conflict, in either order, under strategies that report |
| `Glob.DoGlob` | src/git.rs:2211-2242 | holds exactly when the text splits into one admissible piece per pattern character, no wildcard taking a `/` |
| `Glob.ConcatenatedPatternIff` | src/git.rs:2211-2242 | a concatenated pattern matches exactly the texts that split into a match of each part |
| `Glob.SlashesAgree` | src/git.rs:2204-2204 | a pattern and any text it matches have equally many slashes |
| `Glob.PlainPattern` | src/git.rs:2234-2240 | without wildcards a pattern matches itself only |
| `Glob.Wildcards` | src/git.rs:2211-2233 | `?` stands for one character and `*` for any run, neither for a `/` |
| `Glob.LastLine` | src/git.rs:1859-1884 | one more line of the ignore file: blank lines and comments do nothing, `!` takes back what its pattern matches, any other line ignores what it matches |
| `Glob.DirRuleIff` | src/git.rs:1871-1874 | a rule `dir/` matches the directory and all below it, component by component |
| `Glob.PatternTargets` | src/git.rs:1875-1879 | rules with a slash are matched against the path, others and configured globs against the last component |
| `Glob.PlainNameIff` | src/git.rs:1909-1924 | a configured plain name matches if a component is that name, or if one but the first starts with it and the path ends with it |
| `Glob.PlainNameExample` | src/git.rs:1909-1924 | the name `a` matches `x/ab/ca`, which has no such component |
| `Glob.IsIgnoredByConfig` | src/git.rs:1895-1928 | ignored exactly when some configured pattern matches |
| `Glob.IsIgnored` | src/git.rs:1839-1887 | ignored exactly when a configured pattern matches, or the last rule of the file that matches is not negated |
| `FuseTables.RenameInverseIff` | src/fs.rs:86-91 | a rename keeps the two maps inverse if and only if it lands on no other known path |
| `FuseTables.RunsKeepInverse` | src/fs.rs:52-92 | over any run without such a rename the maps stay full inverses |
| `FuseTables.InodesNeverReissued` | src/fs.rs:65-74 | over any run each known path's inode maps back to it, and a path entered later gets a number above all used before |
| `FuseTables.EnterIs` | src/fs.rs:65-74 | a known path keeps its inode, a new one gets a number never used, and other paths keep theirs |
| `FuseTables.RenameKeepsInode` | src/fs.rs:86-91 | a renamed path keeps its inode under the new name |
| `FuseTables.ForgetIs` | src/fs.rs:80-84 | a forgotten path and its inode are gone, others stay |
| `FuseTables.ListDir` | src/git.rs:839-887 | whatever the read order, the visible names in strict order |
| `FuseTables.ReadDir` | src/fs.rs:373-433 | enters the parent and every visible child, and replies with the page of the full listing at the offset |
| `FuseTables.ListingIsStable` | src/fs.rs:412-421 | reading the directory again changes no inode and no entry |
| `FuseTables.PagesListEverything` | src/fs.rs:423-432 | resuming at the last offset lists `.`, `..` and every child exactly once, in order, for any page sizes of at least one |
| `FuseTables.ListedInodeLeadsBack` | src/fs.rs:412-421 | the inode listed for a child maps back to that child's path |
| `FuseTables.DotsLeadBack` | src/fs.rs:402-412 | `.` is the directory and `..` its parent, whose inode maps back to the parent's path; the root is its own parent |

## Left out

- Backend.GitBackend.ReadFile: does not follow a symbolic link, because links are leaves committed with their target and no other part relates to what they point at; reading through one is refused with an I/O error.
- Backend.GitBackend.WriteFile: does not follow a symbolic link either, for the same reason; writing through one is refused with an I/O error.
- Backend.GitBackend.Rename: does not represent the empty directories that a refused rename may have created on the way, and moves a dangling symbolic link, for which the code answers NotFound.
- Manager.ForkManager.CommitMerge: stops with an I/O error at a symbolic link on the path of a merged file, where the code writes through it into the file it points at.
- Manager.ForkManager.MergeForkWithStrategy: stops at a symbolic link in the same way, does not represent the empty directories created on the way to a file that cannot be written, and removes a dropped link that dangles, which the code leaves.
- Manager.ForkManager.MergeFork: stops at a symbolic link in the same way.
- Manager.ReportedCommitHoldsMerge: takes both tips to be commits of scans under the current ignore rules and threshold, as `ScanIsOrdinary` shows they are; after a change of settings a merged path may be ignored or moved to the blob store.
- MergeRuns.RunMerges: assumes that no fork of the run touched a file of the fork point which the parent dropped and the directory still shows; for one merge `StepFilesIff` says exactly when its conclusion holds.
- AutoRuns.AutoCommitLosesNothing: keeps the ignore rules, an arbitrary predicate, fixed during a run, so writing `.gitignore` itself is not modelled; `Glob` models the rules for given, already trimmed lines.
- History.RacesStayGrounded: covers commits, ref updates and checkouts; dirty tracking is single-threaded, and the `commit_in_progress` flag, which only matters for other threads, is not modelled.
- Absolute path strings would leave the repository root; the model refuses them with an I/O error.
- I/O errors of a healthy disk, a corrupt object store, non-UTF-8 names and hash collisions are hypotheses, not branches.
- The second branch of the dirty-child computation (`src/git.rs:1248-1255`) cannot be reached, because the empty prefix always strips.
- The reference scan's `skip_path` is not modelled: the file it names has been removed by then.
- Empty parent directories of the blob store and their pruning are not represented; the store is a map from hash to content.
- A ref file and a ref directory of one name (`a` and `a/b`) do not clash in the model, and branch names and commit ids are not checked for their syntax.
- Timestamps are parameters; authors are constant; SHA-1, SHA-256 and JSON are functions given from outside.
- Replies are measured in entries, not bytes, and file offsets are natural numbers.
- Creating and removing directories, hard links, extended attributes, `fallocate` and permission bits other than the kept executable bit, which add no relation between the parts.
- Textual diffs, `list_forks`, `get_fork`, `count_commits_ahead` (which walks the log of HEAD, not of the branch), the handle table, and the mounted file system's own dirty set, which only decides when to call `commit`.
- The command line, the health endpoint, settings files and error numbers.
