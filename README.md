# Backup mirror: a verified model

This project models the core of a console backup tool. A backup profile
lists backup locations. Each location is a source file or directory, a
destination directory and a list of exclude patterns. A run mirrors every
location into its destination:

- source files that are new, or newer than their copy, are copied;
- destination files and directories whose source counterpart is gone are removed;
- excluded files and directories are skipped;
- one console line is reported per added, updated or removed entry;
- a dry run reports the same lines but writes nothing.

A failing filesystem call stops the run. The run then fails with a
`BackupException` that carries two fixed message keys and the failing
call's message as its single detail line.

The model has seven modules:

- `Exclusion`: the exclude-pattern matcher. It works on path strings: a
  pattern equal to the path, `*.ext` extension patterns for files, and
  `*/<name>/*` directory wildcards.
- `Failures`: the `BackupException` value and its three constructors.
- `Paths`: paths as sequences of names, rendered as `/`-separated strings,
  and the path shortened by the location prefix that report lines show.
- `FileSystems`: the source tree as an immutable value, and the destination
  volume as a class. The volume holds files, directories and the console
  report log. Its methods are the primitive calls the runner makes:
  create directory, copy, clear the read-only flag, delete a file, delete an
  empty directory. Each has its error conditions.
- `MirrorSpec`: what a run promises, as predicates on volumes.
  `Mirrored` says a destination directory mirrors a source directory,
  recursively. `ExclusionsKept` says the copies of excluded entries are
  untouched. It also holds the frame predicates for each step and the
  lemmas that put one level of the recursion together.
- `Runner`: the backup algorithm itself as imperative methods on the
  volume. The recursion is mutual: `BackupDirectoryRecursively` →
  `PruneThenMirrorSubdirectories` → `BackupSubdirectories` →
  `BackupSubdirectory` → `BackupDirectoryRecursively` on a child. It
  terminates on the set of source directories below the current one.
- `Wrappers`: `Option` and `Result`.

## Model

| member | source | states |
|---|---|---|
| Exclusion.ShouldFileBeExcluded | Backup/Utils/ExcludeUtil.cs:13-29 | a file is excluded iff some pattern either equals its path or is a `*.`-pattern whose text after the star ends the path |
| Exclusion.ContainsExcludedFileExtension | Backup/Utils/ExcludeUtil.cs:38-54 | true iff some pattern starts with `*.` and the path ends with that pattern minus its leading star |
| Exclusion.ShouldDirectoryBeExcluded | Backup/Utils/ExcludeUtil.cs:56-72 | a directory is excluded iff some pattern either equals its path or is a `*/…/*` wildcard whose middle part ends the path |
| Exclusion.ContainsExcludedDirectoryWildcard | Backup/Utils/ExcludeUtil.cs:74-98 | true iff some pattern starts with `*/`, ends with `/*`, and the path ends with the pattern minus its first and last two characters |
| Exclusion.WildcardDirectory | Backup/Utils/ExcludeUtil.cs:86-87 | the extracted part has length `pattern length - 3`, and the pattern is exactly `*` + part + `/*` |
| Exclusion.ExtensionPatternRule | Backup/Utils/ExcludeUtil.cs:13-54 | a single `*.ext` pattern excludes exactly the paths equal to it or ending with `.ext` |
| Exclusion.FileExcludedOnlyVerbatimOrByExtension | Backup/Utils/ExcludeUtil.cs:13-54 | without extension patterns, a file is excluded iff its path is listed verbatim |
| Exclusion.DirectoryWildcardsSpareFiles | Backup/Utils/ExcludeUtil.cs:13-54 | directory wildcards never exclude a file, except one listed verbatim |
| Exclusion.ExtensionPatternsSpareDirectories | Backup/Utils/ExcludeUtil.cs:56-98 | extension patterns never exclude a directory, except one listed verbatim |
| Exclusion.DirectoryWildcardRule | Backup/Utils/ExcludeUtil.cs:56-98 | `*/name/*` excludes a directory iff its path equals the pattern or ends with `/name` |
| Exclusion.CatchAllWildcard | Backup/Utils/ExcludeUtil.cs:81-92 | the wildcard `*/*` excludes every directory |
| Exclusion.ExclusionIgnoresOrder | Backup/Utils/ExcludeUtil.cs:13-98 | the verdicts depend only on the set of patterns, not on their order or repetition |
| Exclusion.ExclusionMonotone | Backup/Utils/ExcludeUtil.cs:13-98 | adding patterns before or after never un-excludes a path |
| Failures.DetailLines | Backup/Data/BackupException.cs:20-25 | a null detail stays null; any other detail becomes a one-line list |
| Failures.FromMessage | Backup/Data/BackupException.cs:17-26 | the messages are the one given message; the details are null iff the given detail is null, and otherwise the one-line list |
| Failures.FromMessageList | Backup/Data/BackupException.cs:34-38 | both lists are kept exactly as given |
| Failures.FromMessageListAndDetail | Backup/Data/BackupException.cs:46-55 | the messages are kept as given; the details are null iff the detail is null, and otherwise the one-line list |
| Failures.ConstructorsAgree | Backup/Data/BackupException.cs:17-55 | the single-message constructor equals the list constructor on a one-element list, and the single-detail form equals the list form on its one-line list |
| Paths.Child | Backup/Start/BackupRunner.cs:259 | the combined path's parent is the directory and its last name is the given name |
| Paths.Relative | Backup/Start/BackupRunner.cs:291 | cutting the rendered location's length off the rendered path yields the rendering of the names below the location |
| Paths.WildcardExcludesNamedDirectoryAtAnyDepth | Backup/Utils/ExcludeUtil.cs:80-92 | `*/name/*` excludes every directory whose last name is `name`, at any depth |
| Paths.WildcardExcludesOnlyThatName | Backup/Utils/ExcludeUtil.cs:80-92 | when no name contains `/`, `*/name/*` excludes only directories whose last name is `name`; suffix matches such as `xname` are not excluded |
| FileSystems.ErrorMessage | Backup/Start/BackupRunner.cs:60 | a failing call's message ends with the rendered path it failed on |
| FileSystems.FileSystem.CreateDirectory | Backup/Start/BackupRunner.cs:139 | fails iff a file stands at the path or at one of its ancestors, and then with `NotADirectory` on that path. Otherwise it adds the path and all its ancestors, and nothing else changes |
| FileSystems.FileSystem.CopyFile | Backup/Start/BackupRunner.cs:155 | fails on a directory target or a read-only target file; otherwise the target becomes the source record, and nothing else changes |
| FileSystems.FileSystem.SetWritable | Backup/Start/BackupRunner.cs:180 | only the file's read-only flag is cleared |
| FileSystems.FileSystem.DeleteFile | Backup/Start/BackupRunner.cs:407 | fails iff the file is read-only; otherwise removes exactly that file |
| FileSystems.FileSystem.DeleteEmptyDirectory | Backup/Start/BackupRunner.cs:493 | fails iff the directory has an entry; otherwise removes exactly that directory |
| FileSystems.FileSystem.Write | Backup/Start/BackupRunner.cs:150 | appends exactly one report line and changes nothing on the volume |
| Runner.UpdateIfNewer | Backup/Start/BackupRunner.cs:298-347 | reports and copies iff the target is missing or strictly older: `Added` when missing, `Updated` when older. The copy fails only on a directory target, and a dry run writes nothing |
| Runner.BackupFileIfNewer | Backup/Start/BackupRunner.cs:287-348 | the same decision for `destDir/<file name>`. The report carries the path relative to the location. It fails only with `IsADirectory` on the target. On a real run without error the target holds a copy at least as new as the source, and no other file changes |
| Runner.BackupNewerFiles | Backup/Start/BackupRunner.cs:225-241 | without a failure, the new report lines are exactly `CopyReports`: `Added` or `Updated` for each non-excluded source file whose copy is missing or older, the same on a dry and a real run. The flag is true iff such a file exists. Only targets of non-excluded source files change, and on a real run each has a synced copy. A failure happens only on a real run, as a copy onto a directory that was already there, and every such directory does cause one |
| Runner.DeleteFilesIn | Backup/Start/BackupRunner.cs:473-482 | removes exactly the files directly in the directory, read-only or not, and keeps every other file's contents |
| Runner.DeleteDirectoryRecursively | Backup/Start/BackupRunner.cs:461-495 | a real run removes exactly the files and directories at or below the directory; a dry run changes nothing; no report is written |
| Runner.RemoveFileIfStale | Backup/Start/BackupRunner.cs:376-416 | a destination file is reported iff its source counterpart is not a file. On a real run exactly that file is deleted, read-only or not; otherwise nothing changes |
| Runner.DeleteStaleFiles | Backup/Start/BackupRunner.cs:376-416 | the new reports are exactly the removals of the stale files. A real run deletes exactly those, and the flag is true iff something was reported |
| Runner.RemoveDirIfStale | Backup/Start/BackupRunner.cs:419-448 | a destination subdirectory is reported iff its source counterpart is not a directory. On a real run its whole subtree is removed |
| Runner.DeleteStaleDirectories | Backup/Start/BackupRunner.cs:419-448 | the new reports are exactly the removals of the stale subdirectories. A real run removes exactly their subtrees, and the flag is true iff something was reported |
| Runner.DeleteFilesAndSubdirsNotContainedAnymore | Backup/Start/BackupRunner.cs:360-453 | true iff some stale file or subdirectory exists; the reports are exactly their removals. Only stale entries are removed, all of them on a real run, none on a dry run |
| Runner.StaleReportsNonEmpty | Backup/Start/BackupRunner.cs:411-446 | the removal reports are non-empty iff a stale file or subdirectory exists |
| Runner.BackupSubdirectory | Backup/Start/BackupRunner.cs:255-269 | recursing into one non-excluded subdirectory touches only its destination branch. It mirrors that branch on a real run and keeps the excluded copies inside it. Without a failure its new lines are exactly `TreeReports` of that branch and it creates a directory iff the branch misses one (`TreeMissing`), both judged on the volume the loop began from; then no copy was blocked in that branch. A failure happens only on a real run, as a copy blocked by a directory below the destination that was there before the loop |
| Runner.BackupSubdirectories | Backup/Start/BackupRunner.cs:253-271 | only the destination branches of non-excluded source subdirectories change. On a real run each of them is mirrored, and excluded copies are kept. Without a failure the new lines are exactly `BranchReports`, the union of the subdirectories' `TreeReports`, and a directory is created iff some branch misses one (`BranchMissing`). It requires that, on a real run, no file stands where a subdirectory goes, which the pruning step before it ensures. A failure is a copy blocked by a directory deeper than the destination's entries that was there before the loop, and every such directory does cause one |
| Runner.PruneThenMirrorSubdirectories | Backup/Start/BackupRunner.cs:243-274 | after the copy step, pruning and then the subdirectory recursion leave the directory mirrored on a real run, with the excluded copies kept. The removal lines of every stale entry of the level are reported, and their existence sets the flag. Without a failure its own lines are exactly those removals plus `BranchReports`, and with the copy lines before it they are exactly `TreeReports` of the level; the flag of the whole level is `TreeHasWork`. A failure is a copy blocked by a directory that was there when the level began, and every such directory does cause one |
| Runner.BackupDirectoryRecursively | Backup/Start/BackupRunner.cs:210-275 | true iff something was reported or a destination directory was created. Only the destination's subtree and its missing ancestors change. A real run without error leaves the destination `Mirrored`, with the copies of excluded entries untouched. Without a failure the new lines are exactly `TreeReports`: every copy and removal line of the whole subtree, the same on a dry and a real run; a directory is created iff `TreeMissing`, and the flag is true iff `TreeHasWork`. A failure happens only on a real run, and is `MirrorFailure`. Conversely a file blocking the destination, or any reachable copy that would land on an existing directory, does make it fail |
| Runner.TreeFrame | Backup/Start/BackupRunner.cs:210-275 | what a directory's mirror reports (`TreeReports`), and which of its branches miss a directory, depend only on what lies strictly below its destination |
| Runner.MirroredIsQuiet | Backup/Start/BackupRunner.cs:210-275 | a mirrored destination gives the mirror no lines to write and no directory to create, so the backup is idempotent |
| Runner.CopyBlockedBranchOf | Backup/Start/BackupRunner.cs:253-271 | a blocked copy deeper than the destination's entries lies in the branch of one non-excluded source subdirectory, and is blocked for the mirror of that subdirectory |
| Runner.SubdirBlockedLifts | Backup/Start/BackupRunner.cs:253-271 | inside a subdirectory's branch, a copy blocked for the parent level is blocked for the subdirectory's own mirror on any volume that agrees below that branch |
| Runner.BranchSpared | Backup/Start/BackupRunner.cs:217-252 | creating the destination, copying and pruning leave everything strictly below a source subdirectory's destination as it was, and whether that destination exists |
| Runner.LevelSparesBranches | Backup/Start/BackupRunner.cs:217-271 | so the branches report and create on the pruned volume exactly what they would on the volume the level began from, and a blocked copy deep in them stays blocked |
| Runner.SubdirTally | Backup/Start/BackupRunner.cs:255-269 | one subdirectory's lines and created directories, judged on the volume it started from, are those judged on the volume the loop began from |
| Runner.BranchesStep | Backup/Start/BackupRunner.cs:253-271 | one more subdirectory adds its `TreeReports` to the loop's lines and its `TreeMissing` to the created directories (invariant `BranchesSoFar`) |
| Runner.BranchesDone | Backup/Start/BackupRunner.cs:253-271 | once the loop is over, the subdirectories handled are exactly the non-excluded ones, and on a real run no copy was blocked deep below the destination |
| Runner.LevelTally | Backup/Start/BackupRunner.cs:210-275 | the copy lines, the removal lines and the branches' lines of a level add up to exactly `TreeReports`, the created directories to `TreeMissing`, and the flag to `TreeHasWork` |
| Runner.BackupFileBackupLocation | Backup/Start/BackupRunner.cs:133-197 | only the copy and the directories on the way to the destination change. Without a failure: true iff the copy is missing or older, reported `Added` or `Updated` with the full source path, and a real run leaves a copy at least as new as the source. It fails only on a real run, exactly when a file blocks the destination directory or a directory stands where the copy goes (`FileLocationFailure`) |
| Runner.Outcome | Backup/Start/BackupRunner.cs:103-119 | the closing message is the dry-run message iff the run was dry, and the update message iff a real run changed something |
| Runner.DoBackup | Backup/Start/BackupRunner.cs:71-121 | a dry run succeeds and writes nothing. A successful run ends with the dry-run message iff it was dry. A successful real run that reported something ends with the update message, and one ending with the update message changed something. The last location is done on a successful real run. On a dry run, or when the roots are `Disjoint`, the new lines are exactly the union of every location's `LocationReports`. With `Disjoint` roots a real run ends with the update message iff some location has work (`LocationHasWork`), leaves every location done (`LocationDone`), and fails iff some location has a `LocationFailure` on the volume the run started from |
| Runner.RunBackup | Backup/Start/BackupRunner.cs:35-62 | a failure becomes `StoppedBy(e)` for some filesystem failure `e`: the two message keys, and `e`'s message as the one detail line. A dry run never fails and ends with the dry-run message, and only a dry run does. With `Disjoint` roots, it fails iff some location has a `LocationFailure`, and then `e` is one. The other success guarantees of DoBackup carry over |
| Runner.CopyReportsNonEmpty | Backup/Start/BackupRunner.cs:225-241 | the copy lines of a directory are non-empty iff some non-excluded source file needs a copy (`HasCopy`) |
| Runner.CopyReportStep | Backup/Start/BackupRunner.cs:227-239 | one pass of the copy loop reports the file iff it needs a copy, with the `Added`/`Updated` line `CopyReport` gives it |
| Runner.ChildNotBlocked | Backup/Start/BackupRunner.cs:259-263 | a child of an existing directory that is not itself a file can be created, since no path on the way to it is a file |
| Runner.SubdirFailureLifts | Backup/Start/BackupRunner.cs:253-271 | a failure while mirroring one subdirectory is a copy blocked below the parent's destination, at a directory that was there before the loop |
| Runner.StaleSurviveLevelStart | Backup/Start/BackupRunner.cs:217-244 | creating the destination and copying the newer files leave the level's stale entries, and their removal lines, unchanged |
| Runner.StoppedBy | Backup/Start/BackupRunner.cs:58-60 | the exception carries the two message keys and the failure's message as its one detail line |
| Runner.BackupOneLocation | Backup/Start/BackupRunner.cs:82-98 | one location changes nothing outside its root (`LocationRoot`). The flag is true iff it reported something or created a directory for a directory location. Without a failure its new lines are exactly `LocationReports`, the flag is `LocationHasWork`, and a real run leaves it done (`LocationDone`). A failure happens only on a real run and is its `LocationFailure`; every `LocationFailure` does cause one |
| Runner.LevelReportsUnder | Backup/Start/BackupRunner.cs:225-448 | a level's copy and removal lines depend only on what lies strictly below its destination |
| Runner.ConfinedKeepsOther | Backup/Start/BackupRunner.cs:76-98 | a location that only writes at or below its root keeps every unrelated root, and the path to it, as it was |
| Runner.LocationReportsKept | Backup/Start/BackupRunner.cs:76-98 | a location's lines, and whether it has work, are the same on any volume kept around its root |
| Runner.LocationDoneKept | Backup/Start/BackupRunner.cs:76-98 | a location stays done while the volume is kept around its root, so a later disjoint location cannot undo it |
| Runner.LocationFailureKept | Backup/Start/BackupRunner.cs:76-98 | a location's failure on a volume kept around its root is also a failure on the volume the run started from |
| Runner.LocationFailureStays | Backup/Start/BackupRunner.cs:76-98 | a failure the starting volume holds for a location is still there when that location's turn comes, if the volume was kept around its root |
| Runner.LocationDoneIsQuiet | Backup/Start/BackupRunner.cs:71-121 | a location that is done has no lines left and no work (`LocationHasWork` is false), so backing it up again at once reports nothing and creates nothing |
| Runner.RunStep | Backup/Start/BackupRunner.cs:76-98 | one location that stays within its root and, on a real run, is done keeps the location loop's invariant `RunSoFar` |
| Runner.RunTallyStep | Backup/Start/BackupRunner.cs:76-99 | one location without failure adds its `LocationReports` to the run's lines and its `LocationHasWork` to the update flag, judged on the starting volume (invariant `RunTally`) |
| Runner.RunAdvance | Backup/Start/BackupRunner.cs:76-99 | one location backed up without failure keeps both location-loop invariants, `RunSoFar` and `RunTally` |
| Runner.RunDone | Backup/Start/BackupRunner.cs:71-121 | after the loop, the run's lines are all locations' `LocationReports`, the update flag is some location's `LocationHasWork`, and every location is done and had no failure |
| MirrorSpec.ChildCopyBlocked | Backup/Start/BackupRunner.cs:229-239 | a directory standing where a non-excluded child file's copy goes blocks the copy (`CopyBlockedAt`) |
| MirrorSpec.CopyBlockedInBranch | Backup/Start/BackupRunner.cs:255-269 | a copy blocked inside a non-excluded subdirectory's branch is a copy blocked below the parent's destination |
| MirrorSpec.PrunedBranchesFree | Backup/Start/BackupRunner.cs:360-453 | after a real pruning step, no file stands where a source subdirectory is to be mirrored |
| MirrorSpec.SyncedLeavesNoBlockedChild | Backup/Start/BackupRunner.cs:225-241 | once every non-excluded child file has a synced copy, no child copy is blocked by a directory |
| MirrorSpec.MirroredCopiesReachableFiles | Backup/Start/BackupRunner.cs:225-271 | in a mirrored directory, every non-excluded source file reachable through non-excluded directories has a copy at least as new at the same relative place |
| MirrorSpec.MirroredHasNoStrayFiles | Backup/Start/BackupRunner.cs:376-448 | in a mirrored directory, every file reached through non-excluded branches has a source original at the same relative place |
| MirrorSpec.LevelMirrored | Backup/Start/BackupRunner.cs:218-271 | creating the directory, copying, pruning and mirroring the subdirectories together establish `Mirrored` for the level |
| MirrorSpec.LevelKept | Backup/Start/BackupRunner.cs:218-271 | the same four steps leave the copies of excluded entries of the level untouched |
| MirrorSpec.MirroredFrame | Backup/Start/BackupRunner.cs:253-271 | `Mirrored` depends only on the entries at or below the destination directory, so sibling branches cannot undo it |
| MirrorSpec.ExclusionsKeptFrame | Backup/Start/BackupRunner.cs:253-271 | the exclusion guarantee depends only on the entries below the destination directory |
| MirrorSpec.SyncConfined | Backup/Start/BackupRunner.cs:225-241 | the copy step changes nothing outside the destination directory |
| MirrorSpec.PruneConfined | Backup/Start/BackupRunner.cs:360-453 | the pruning step changes nothing outside the destination directory |
| MirrorSpec.BranchConfined | Backup/Start/BackupRunner.cs:253-271 | the subdirectory recursion changes nothing outside the destination directory |

## Left out

- Real file I/O, the clock and file contents beyond equality: the volume is an in-memory map, and last-write times are integers.
- Failures other than the structural ones are not modelled: a directory in the way of a copy, a file in the way of a directory, a read-only file, a non-empty directory. Permissions, locks, full disks and missing sources are out.
- The read-only attribute of directories (BackupRunner.cs lines 465-469) is not modelled; only files carry one.
- A destination that lies inside its own source is not modelled: the source is an immutable snapshot the run cannot write.
- The order of report lines among siblings is not fixed, because directory listings are unordered.
- BackupDirectoryRecursively: states its new lines as a set (`TreeReports`), which fixes which lines appear but not how often each appears. The same holds for the report sets of BackupSubdirectory, BackupSubdirectories, PruneThenMirrorSubdirectories, BackupOneLocation, DoBackup and RunBackup. The number of new lines is not stated. Report lines are strings, and names in the model may contain `/`, so two entries can render to the same line and the set can be smaller than the log. Two locations can also write the same relative line.
- The console headlines, colours and empty lines, Start.cs, the profile selector, the XML reader, the logger and ExitUtil are outside this model. `ConsoleWriter` is only the report log.
- Localized texts are not part of this model: `StopBecauseOfError` and `ErrorMessageTitle` are their resource keys.
- Null lists and null strings are not modelled, except a null detail line, which is `None`.
- The profile type the runner reads has a dry-run flag, but BackupProfile.cs declares none. The model adds `dryRun` to `BackupProfile`.
- DoBackup: the per-location guarantees hold only when no location's root lies at or below another's (`Disjoint`). Otherwise only the last location is stated to be done, and nothing is said about a failure's location, because a later location may write into an earlier one's destination.
- RunBackup: with overlapping roots, the failure in the detail line is not tied to a location, for the same reason as DoBackup.
- ShouldFileBeExcluded: compares ordinally, character by character. .NET's one-argument `StartsWith`/`EndsWith` (ExcludeUtil.cs lines 45, 81 and 88) compare with the current culture. There, ignorable characters such as a soft hyphen, or a composed and a decomposed `é`, can make a pattern match where the model does not.
- ShouldDirectoryBeExcluded: the same ordinal comparison as ShouldFileBeExcluded. Paths are rendered with `/` on every platform, while on Windows `Path.Combine` joins names with `\`. There a `*/name/*` wildcard never matches a combined path, and the model does not reproduce that.
- FileSystems.ErrorMessage: the message texts are placeholders, not .NET's exact wording. The model fixes only that a message ends with the failing path.
- BackupFileBackupLocation: creating a missing destination directory does not set the changed flag. This follows lines 137-141, and the directory branch (lines 218-222) differs here.
- A location that is neither a file nor a directory is skipped, as in the source.
