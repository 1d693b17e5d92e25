# Backup mirror: a verified model

The program (`main.py`) is a Windows backup tool that keeps a live mirror of folders. A
JSON configuration lists *include rules*. Each rule has:

- source folders (`paths`);
- a target folder on some drive (`targetPath`);
- optional `excludes`.

At start-up the program:

- loads the rules;
- drops excludes that lie outside every source folder;
- marks each rule active when its target drive is present;
- copies every source folder of every active rule into `targetPath\<folder name>`;
- starts one filesystem watcher per copied folder.

The watchers replay file creations, deletions, modifications and renames into the replica. An
operation refused with `PermissionError` goes into a retry queue, which a timer drains once a
minute. When drives come and go, the affected rules are reactivated (backed up again, with new
watchers) or deactivated (their watchers stopped and dropped).

The Dafny model has eight modules:

| Module | File | Contents |
|---|---|---|
| `Wrappers` | `wrappers.dfy` | `Option`, `Result` |
| `Paths` | `paths.dfy` | Windows path strings: prefix tests, `os.path.join`, `basename`, `splitdrive` |
| `Seqs` | `seqs.dfy` | `list.remove`, removal of several elements, filtering, with their lemmas |
| `Rules` | `rules.dfy` | decoding the configuration object into `Include` rules; `Configuration`; both visitors |
| `Retry` | `retry.dfy` | `AttemptOperation` and `AttemptsManager`: the queue and its timer flag |
| `Watching` | `watcher.dfy` | a `Watcher`'s path mapping and ignore test; `arrangeIgnorePatterns` |
| `Lifecycle` | `lifecycle.dfy` | `backupSinglePath`, `ensureDataIsBackuped`, `observeFileSystem`, `activateRules`, `deactivateRules`, `DevicesWatcher.devicesChanged` |
| `Mirror` | `mirror.dfy` | the event handlers, `_create`/`_delete`/`_replace`/`_rename`, `tryCopy2`, over a filesystem map |

Mutable program objects are Dafny classes whose methods change the source's fields (`Include`,
`Configuration`, both visitors, `AttemptsManager`, `Watcher`, the program's list of watchers).
Loops in the source are loops here, each proved against a specification function. Pure helpers
are functions.

The environment is passed in as parameters:

- `Host` answers `os.path.exists` and `os.path.abspath`.
- `copytree` is an oracle that reports success or an `OSError`.
- Whether a queued operation succeeds is an oracle.
- The `Mirror` filesystem is a map from path to file contents or folder, plus the set of paths
  another process keeps locked.

## Model

| member | source | states |
|---|---|---|
| Paths.RemovePrefix | main.py:497 | `str.removeprefix`: with the prefix, prefix plus result is the input; without it the input is returned unchanged |
| Paths.Join | main.py:494 | `os.path.join` of two parts (`ntpath` rules): a part with a different drive, or with a drive and a root, replaces the first. A rooted part without a drive keeps the first part's drive. A relative part, or a drive-relative part on the same drive, is appended to a directory after one separator |
| Paths.JoinSameDriveRelative | main.py:494 | `join("C:\\x", "C:foo")` is `C:\x\foo`: the drive-relative part is appended, not substituted |
| Paths.Drive | main.py:326 | the drive of `splitdrive` is non-empty exactly when the path's second character is `:`, and it is then the path's first two characters |
| Paths.JoinDrive | main.py:326 | when the first part has a drive, the drive `splitdrive` finds in the joined path is the second part's drive if it has one, else the first part's |
| Paths.BaseNameOfChild | main.py:619 | `basename` of `dir\name` is `name` |
| Paths.BaseName | main.py:619 | `os.path.basename` holds no separator and is no longer than the part after the drive |
| Paths.BaseNameSuffix | main.py:619 | the base name is the path's suffix after its last separator, or after the drive when there is none |
| Rules.ExistentPathsEmpty | main.py:89-93 | `existentPaths` yields nothing exactly when none of the given paths exists |
| Rules.ExistentPathsMembership | main.py:89-93 | a yielded path is the absolute form of an existing given path, and every such form is yielded |
| Rules.ExistentPaths | main.py:89-93 | `existentPaths` yields at most one path per configured path |
| Rules.ExistentPathsAll | main.py:89-93 | when every configured path exists, each one is yielded, made absolute, in its place |
| Rules.DecodeRule | main.py:161-188 | a rule loads exactly when "paths" is present and one listed path exists. It fails otherwise: `TypeError` for a missing key, "no valid include paths" for none existing. A loaded rule's include paths are the existing paths made absolute, in order, and its target is `abspath(str(targetPath))`. Its excludes are the existing listed excludes made absolute, or none when the key is missing |
| Rules.Include.constructor | main.py:154-158 | a new rule is active and holds the given paths, target and excludes |
| Rules.Include.FromObject | main.py:161-188 | returns a fresh active `Include` with exactly the decoded contents, or the same error |
| Rules.DecodeItemsSpec | main.py:209-215 | the loop succeeds exactly when every truthy item loads. It then yields one rule per truthy item, in order; otherwise the error is that of the first truthy item that fails to load, all items before it loading |
| Rules.DecodeConfigSpec | main.py:207-226 | loading succeeds exactly when "includes" holds a truthy item and all of them load. The rules are those items' rules in order; a failure is "No includes specified" exactly when "includes" is missing or holds no truthy item; any other failure is the error of the first truthy item that fails to load |
| Rules.Configuration.ParseItems | main.py:210-215 | the loop creates one fresh, distinct, active `Include` per truthy item, whose contents equal the decoded rules; it fails exactly when decoding fails, with the same error |
| Rules.Configuration.ParseIncludes | main.py:207-218 | `None` exactly when decoding yields no rules (absent or empty "includes", no truthy item); otherwise fresh distinct active rules with the decoded contents, or the decoding error |
| Rules.Configuration.FromObj | main.py:220-226 | a fresh configuration of fresh distinct active rules with the decoded contents, or the decoding error, or "No includes specified" |
| Rules.ValidationVisitor.VisitInclude | main.py:299-301 | the visitor remembers the visited rule as the parent |
| Rules.ValidationVisitor.VisitExclude | main.py:303-311 | an exclude that starts with none of the parent's include paths loses its first occurrence in the parent's excludes; any other exclude leaves them as they were |
| Rules.Include.AcceptValidation | main.py:190-194 | visiting a rule over a snapshot of its excludes leaves exactly `Pruned(old excludes)` |
| Rules.PruneStep | main.py:192-194 | one step over the snapshot: removing from the live list matches pruning one more snapshot entry |
| Rules.PrunedMembership | main.py:303-311 | an exclude survives validation exactly when it was listed and starts (as a string) with some include path |
| Rules.PrunedConcat | main.py:192-194 | pruning distributes over concatenation, so survivors keep their original order |
| Rules.Configuration.AcceptValidation | main.py:236-239 | `Configuration.accept` prunes every rule's excludes and leaves every active flag unchanged |
| Rules.UpdateActiveDrivesVisitor.constructor | main.py:319-322 | both lists start empty |
| Rules.UpdateActiveDrivesVisitor.VisitInclude | main.py:324-335 | the flag becomes "the target's drive exists"; the rule is appended to the activated list on false to true, to the deactivated list on true to false, and to neither otherwise |
| Rules.Include.AcceptUpdateActiveDrives | main.py:190-191 | `Include.accept` with the drive visitor is exactly the `visitInclude` above |
| Rules.Configuration.AcceptUpdateActiveDrives | main.py:236-239 | after the traversal every flag equals its drive's presence. The visitor's lists gained exactly `Flipped(rules, before, after, true)` and `Flipped(..., false)`: the rules that rose and those that fell, in traversal order |
| Rules.Configuration.VisitAll | main.py:238-239 | the traversal loop, stated over the flags before and after |
| Rules.FlippedMembership | main.py:328-333 | a rule is collected in a list exactly when its flag changed and ended at that list's value |
| Rules.FlippedExclusive | main.py:328-333 | for distinct rules, no rule is both activated and deactivated |
| Rules.FlippedUnchanged | main.py:328 | for distinct rules, a rule whose flag did not change is in neither list |
| Retry.AttemptOperation.constructor | main.py:352-353 | an operation holds the queued action |
| Retry.AttemptsManager.constructor | main.py:369-374 | a new manager has an empty queue and an unarmed timer |
| Retry.AttemptsManager.Start | main.py:405-407 | `start` arms the timer and leaves the queue alone. It fails (the `RuntimeError` of `reset_timer`, main.py:376-381) exactly when the timer was already armed |
| Retry.AttemptsManager.Stop | main.py:409-413 | `stop` disarms the timer and leaves the queue alone |
| Retry.AttemptsManager.QueueOperation | main.py:383-389 | the operation is appended at the end and the armed flag ends as it was |
| Retry.AttemptsManager.Dequeue | main.py:395-403 | removes exactly the listed operations, one occurrence each and first occurrences first; the other operations and the flag stay |
| Seqs.RemoveFirst | main.py:311 | `list.remove(x)` of a listed element takes out exactly one occurrence of `x`: the result is one shorter and its multiset is the old one minus `x` |
| Seqs.RemoveAll | main.py:398-399 | the removal loop computes `RemoveEach`, one `list.remove` per listed element |
| Retry.AttemptsManager.Inquire | main.py:415-425 | one tick keeps exactly the operations whose attempt failed, in their order, and leaves the timer armed exactly when something remains |
| Retry.TickKeepsExactlyFailures | main.py:415-425 | after a tick an operation is queued exactly when it was queued and its attempt failed; the kept and removed operations partition the old queue |
| Retry.RetriedUntilSuccess | main.py:415-425 | across any number of ticks, a queued operation stays exactly as long as every attempt on it fails |
| Retry.AttemptsManager.QueueAndStartAsWritten | main.py:516-517 | the handlers' `QueueCallable` then `start()`: the operation is queued and the call fails exactly when the timer was armed |
| Retry.AttemptsManager.QueueAndStart | main.py:516-517 | queue the operation and arm the timer unless it is armed: appended, timer armed |
| Retry.SecondQueuedRetryRaises | main.py:516-517 | two permission errors in a row: the first handler succeeds, the second raises |
| Retry.SecondQueuedRetryQueues | main.py:383-393 | with the corrected handler, both operations are queued in order and the timer is armed |
| Watching.Watcher.constructor | main.py:456-463 | a watcher holds its source, target base, folder name and ignore patterns, and is not running |
| Watching.Watcher.Run | main.py:473-480 | the observer is running |
| Watching.Watcher.Stop | main.py:482-484 | the observer is stopped |
| Watching.Watcher.ShouldIgnore | main.py:486-490 | an event path is ignored exactly when it starts with the source root joined with one of the watcher's ignore patterns |
| Watching.Watcher.TargetPath | main.py:492-494 | for a directory base and a relative folder name, the replica root is `base\folder` |
| Watching.Watcher.DestinationPath | main.py:496-498 | for a directory replica root, a path `source\rel` with a relative `rel` is replicated to `targetPath\rel` |
| Watching.NameIsDifferent | main.py:560-563 | two paths whose names differ are different paths |
| Watching.ArrangeIgnorePatterns | main.py:608-614 | a rule without excludes, or without include paths, gets no ignore patterns |
| Watching.MatchesIgnore | main.py:486-490 | `shouldIgnore(p)` holds exactly when `p` starts with `join(sourcePath, q)` for some ignore pattern `q` |
| Watching.TailSubpath | main.py:497 | for a path `source\rest`, the tail is `rest` |
| Watching.TargetPathOfFolder | main.py:492-494 | for a directory base and a plain folder name, the replica root is `base\folder`, again a directory |
| Watching.DestinationOfChild | main.py:496-498 | `source\rel` is replicated to `targetPath\rel` |
| Watching.DestinationInjective | main.py:496-498 | distinct paths under the source have distinct replicas |
| Watching.DestinationOfRoot | main.py:496-498 | the source root maps to the replica root followed by a separator |
| Watching.SameNameMoveIsNotRenamed | main.py:560-563 | a move into another folder that keeps the name has no different name |
| Watching.RenameIsDetected | main.py:560-563 | inside one folder, the names differ exactly when the file names differ |
| Watching.PatternsOf | main.py:610-613 | one exclude contributes at most one pattern per include path |
| Watching.PatternsOfMembership | main.py:610-613 | a pattern of one exclude is the exclude minus `src\` for an include path `src` it starts with |
| Watching.IgnorePatternsMembership | main.py:608-614 | a pattern is derived exactly when some (exclude, include path) pair has the exclude starting with the include path, and the pattern is the exclude minus `includeSrc\` |
| Watching.IgnorePatternsAt | main.py:609-613 | exclude-major order: the patterns of the `i`-th exclude come after those of every earlier exclude and before those of every later one |
| Watching.IgnorePatternsConcat | main.py:611 | the patterns of concatenated exclude lists are the concatenation of their patterns |
| Watching.ExcludedSubtreeIgnored | main.py:608-614 | an exclude `src\rel` makes the watcher of `src` ignore every path at or below it |
| Watching.SiblingExcludeAlsoIgnored | main.py:608-614 | patterns are per rule: an exclude under one include path also hides the same relative path under every other include path of the rule |
| Lifecycle.PathsPlan | main.py:638-640 | one planned watcher per include path, in order, each built as `backupSinglePath` builds it |
| Lifecycle.RulePlanMembership | main.py:638-640 | a watcher is planned for a rule exactly when the rule is active and the watcher is that of one of its include paths |
| Lifecycle.PlanMembership | main.py:634-640 | a watcher is planned for the rules exactly when it is the watcher of an include path of an active rule |
| Lifecycle.PlanSize | main.py:634-640 | the number of watchers equals the number of include paths of active rules |
| Lifecycle.BackupSinglePath | main.py:616-632 | copies into `targetPath\basename(source)` with the rule's patterns. A failure yields no watcher; a success while monitoring yields one new idle watcher with exactly that source, target, name and patterns |
| Lifecycle.BackupRule | main.py:638-640 | one rule's include paths, skipped when it is inactive: succeeds exactly when every planned copy does, and then yields the planned watchers in order |
| Lifecycle.EnsureDataIsBackuped | main.py:634-640 | succeeds exactly when every planned copy succeeds. While monitoring it yields fresh, distinct, idle watchers realising the plan one for one, in order; otherwise none |
| Lifecycle.WatcherList.constructor | main.py:839 | the program's list of watchers starts empty |
| Lifecycle.ObserveFileSystem | main.py:588-592 | every listed watcher is running |
| Lifecycle.ActivateRules | main.py:766-775 | succeeds exactly when every planned copy succeeds. On failure the list is unchanged; on success it keeps its old prefix and gains fresh running watchers realising the plan |
| Lifecycle.KeptMembership | main.py:784-788 | a watcher remains after deactivation exactly when it was listed and belongs to none of the rules |
| Lifecycle.KeptOrder | main.py:784-788 | the remaining watchers keep their relative order |
| Lifecycle.PlannedWatchersBelong | main.py:786 | every watcher created for a list of rules matches one of them by target and source |
| Lifecycle.ReactivationRoundTrip | main.py:766-788 | deactivating freshly activated rules removes every watcher their activation added; the earlier watchers are filtered as if the activation had not happened |
| Lifecycle.ReactivationRestores | main.py:766-788 | if no earlier watcher belongs to those rules, activating and then deactivating them gives back exactly the earlier list |
| Lifecycle.DeactivateRules | main.py:778-788 | the list becomes exactly the watchers belonging to no deactivated rule, in order. Exactly those listed watchers are stopped; the others keep their running state |
| Lifecycle.StopRuleWatchers | main.py:785-788 | one rule's pass over the snapshot removes and stops exactly that rule's remaining watchers |
| Lifecycle.VisitWatcher | main.py:786-788 | one snapshot entry is stopped and dropped when the rule matches it |
| Lifecycle.DeactivateRulesAsWritten | main.py:778-788 | the loop as written fails exactly when some listed watcher matches two of the rules; otherwise it ends as `DeactivateRules` does |
| Lifecycle.StopRuleWatchersAsWritten | main.py:785-788 | one rule's pass as written fails exactly when a watcher it matches was removed by an earlier rule |
| Lifecycle.VisitWatcherAsWritten | main.py:786-788 | `watchers.remove` fails exactly when the matched watcher is no longer listed |
| Lifecycle.SharedFolderDeactivationRaises | main.py:783-788 | two rules backing up the same folder into the same target, deactivated together: the loop as written fails |
| Lifecycle.SharedFolderDeactivationRemoves | main.py:783-788 | the same situation with the corrected loop: both watchers are stopped and the list is empty |
| Lifecycle.FlippedDrives | main.py:324-332 | every rule the drive visitor reports as activated has its target drive present, and every rule it reports as deactivated has its drive absent |
| Lifecycle.PlannedNotRemoved | main.py:786 | a watcher created for a rule whose drive is present matches no rule whose drive is absent, so deactivating those rules never removes it |
| Lifecycle.KeptAfterAppend | main.py:784-788 | appending watchers that no deactivated rule matches leaves them at the end of the list and does not change what is kept before them |
| Lifecycle.DeactivateBeforeAppended | main.py:737-740 | with no rule `deactivateRules` is skipped. Otherwise the old part of the list loses exactly the watchers of the deactivated rules, which are stopped, and the appended watchers stay at the end with their running state unchanged. |
| Lifecycle.ApplyDriveChanges | main.py:737-740 | the activation callback runs, then the deactivation callback, and each is skipped when its list is empty. The call succeeds exactly when every planned copy succeeds, and on failure the list is unchanged. On success the list is the old watchers minus those of the deactivated rules, then new, freshly created and running watchers realising the plan. Exactly the removed old watchers stop. |
| Lifecycle.DevicesChanged | main.py:734-740 | afterwards every rule's flag says whether its target drive exists. The rules whose flag rose are backed up and watched; the watchers of the rules whose flag fell are stopped and removed. The outcome and the new list are as for `ApplyDriveChanges`, for exactly the rules that flipped. Every watcher after the kept ones is freshly created and running. |
| Mirror.TryCopy2Spec | main.py:596-606 | `tryCopy2` leaves `dst` with the source's contents and changes nothing else exactly when the source is an unlocked file and `dst` is neither locked nor a folder; otherwise nothing changes |
| Mirror.TryCopy2Idempotent | main.py:596-606 | copying again what was already copied changes nothing |
| Mirror.CreatedFileMirrored | main.py:500-514 | a new unlocked file `source\rel`, not ignored, is copied to `targetPath\rel`, and nothing else changes |
| Mirror.ReplaceMirrors | main.py:541-546 | after `_replace` the copy target holds the source's contents and no other path changed |
| Mirror.ReplaceIdempotent | main.py:541-546 | handling the same modification again writes nothing, because the replica now compares equal |
| Mirror.DeleteRemovesTree | main.py:521-526 | `_delete` succeeds exactly when the destination exists and what it removes is unlocked. It then removes the destination and everything below it, and nothing else |
| Mirror.RenamedTree | main.py:585 | `os.rename` moves every member of the tree to its rebased path with its contents, and keeps every path outside both trees |
| Mirror.RenameMovesTree | main.py:582-586 | the intended `_rename` (delete an existing destination, then rename): the replica tree appears under the new name, the old name is gone, and the rest is unchanged |
| Mirror.RenameInFolderMirrored | main.py:565-575 | a rename inside one folder, whose replica exists, is handed to `_rename` of the two replica paths, and the handler ends as that call ends |
| Mirror.MoveKeepingNameNotMirrored | main.py:565-573 | a move into another folder that keeps the name leaves the replica unchanged |
| Mirror.CreatedQueuesItsOperation | main.py:509-519 | a consistency fact between the handler and the retry dispatcher `Execute`: what `on_created` queues is its own `_create`, and dispatching it at once fails with the same `PermissionError` |
| Mirror.DeletedQueuesItsOperation | main.py:528-539 | the same consistency fact for `on_deleted` and `_delete` of the replica path |
| Mirror.ModifiedQueuesItsOperation | main.py:548-558 | the same consistency fact for `on_modified` and `_replace` |
| Mirror.MovedQueuesItsOperation | main.py:565-580 | the same consistency fact for `on_moved` and `_rename` of the two replica paths |
| Mirror.ExcludedEventsChangeNothing | main.py:509-512 | every event (created, deleted, modified, moved) at or below an excluded path is ignored and leaves the filesystem unchanged |
| Mirror.StaleDeleteStaysQueued | main.py:355-361 | a queued deletion whose replica has disappeared fails on every tick, so it is never dequeued |
| Mirror.SameFile | main.py:544 | `filecmp.cmp` is true exactly when the other path is an unlocked regular file with the same contents as the unlocked source. It fails, with `PermissionError`, exactly when one of two regular files is locked |
| Mirror.CopyFile | main.py:444-446 | `shutil.copy2` succeeds exactly when the source is an unlocked file and the target is neither a folder nor locked; the target is the given path, or the source's name inside a folder there. The target then holds the source's contents, and nothing else changes |
| Mirror.RemoveFile | main.py:523 | `os.remove` succeeds exactly on an unlocked file, and removes that path only |
| Mirror.RemoveTree | main.py:525 | `shutil.rmtree` succeeds exactly on a folder with nothing locked in its tree, and removes exactly that tree |
| Mirror.Rename | main.py:585 | apart from a missing parent folder of the destination, which the model does not track (see Left out), `os.rename` succeeds exactly when the source exists, nothing in its tree is locked, and the destination is absent, unlocked and outside the source's tree. The destination then holds the source's contents |
| Mirror.CreateItem | main.py:500-507 | when `_create` of a file succeeds, the file's contents are at its copy target; a path that is not a file is left alone |
| Mirror.DeleteItem | main.py:521-526 | after `_delete` the destination, which existed, is gone, and no path was added or changed |
| Mirror.ReplaceItem | main.py:541-546 | when `_replace` of a file succeeds, the copy target holds the file's contents; a path that is not a file is left alone |
| Mirror.RenameItem | main.py:582-586 | after `_rename` the destination holds the replica's former contents. This is the intended form, whose existence test is on the exact name (see Findings) |
| Mirror.Execute | main.py:355-361 | running a queued operation again never changes which paths are locked. A queued deletion removes its path, and a queued rename creates its destination |
| Mirror.OnCreated | main.py:509-519 | an ignored path changes nothing. Otherwise `_create` is applied when it succeeds, and queued exactly when it raises `PermissionError` |
| Mirror.OnDeleted | main.py:528-539 | the same for `_delete` of the replica path |
| Mirror.OnModified | main.py:548-558 | the same for `_replace` |
| Mirror.OnMoved | main.py:565-580 | an ignored path, a missing replica or an unchanged name changes nothing. Otherwise `_rename` of the two replica paths is queued exactly when it raises `PermissionError` |
| Mirror.TryCopy2 | main.py:596-606 | `tryCopy2` never changes the locks. Whenever it changes anything, the source was a file whose contents `dst` now holds |
| Mirror.RenameItemAsWritten | main.py:582-586 | `_rename` as written on a case-insensitive filesystem. Whenever it raises nothing, it agrees with `RenameItem` |
| Mirror.CaseOnlyRenameLosesReplica | main.py:582-586 | as written, renaming a replica file to a name that differs only in letter case deletes the replica and then fails. The file is then absent under both names |
| Mirror.CaseOnlyRenameMirrored | main.py:582-586 | the intended `_rename` moves the replica file to the new spelling, with its contents |
| Mirror.CaseOnlyRenameExample | main.py:560-586 | renaming `D:\b\a.txt` to `D:\b\A.txt`: as written the replica is gone; as intended it is `D:\b\A.txt` with the same contents |

## Left out

- Logging and notifications (`log`, `notifyMessage`, `notifyEvent`, `raiseWarning`) are no-ops. `raiseError` becomes an error result or a `false` outcome.
- JSON parsing and the configuration file (`fromString`, `fromFile`, `tryReadConfig`, `CustomJsonEncoder`, `printConfiguration`) are not modelled; the decoded object is the input.
- A "paths" value that is a string or some other non-list iterable is not modelled; `list(...)` of a string would iterate its characters. "paths" and "excludes" are lists of strings or absent.
- The dead `if not targetPath` check (main.py:174-175) is not modelled, because `abspath(str(...))` is never empty.
- The registry auto-start, `DeviceListener` and its Windows message loop, `DevicesWatcher.listDrives`, `Drive`, `runDeviceWatcher`, `main` and `onExitHandler` are process and OS plumbing; they are not modelled.
- Lifecycle.DevicesChanged: its deactivation callback is the corrected `Lifecycle.DeactivateRules`, not `deactivateRules` as written (see Findings). A copy error is a `false` outcome instead of an exception that leaves the listener callback.
- `threading.Timer` is represented by the armed flag only. The one-minute period and the timer thread are left out, so a tick is an explicit call of `Inquire`.
- Retry.AttemptsManager.Dequeue: an operation that is not queued makes `list.remove` raise `ValueError`. This is a precondition here, because `inquire`, the only caller, removes only operations that are present.
- Retry.AttemptsManager.Start: the `RuntimeError` is a `false` result. Nothing else of the exception's propagation is modelled.
- Lifecycle.DeactivateRulesAsWritten: after the `ValueError`, the state left behind (some watchers stopped and removed) is not described; only the failure is stated.
- The watchdog observer is represented by a running flag. `configureObserver` is folded into the constructor, because it is always called right after `__init__` (main.py:628-629). The unconfigured branch of `run` is therefore not modelled.
- `PatternMatchingEventHandler` also receives the ignore patterns as glob patterns. That pre-filtering by watchdog is not modelled; only `shouldIgnore` is.
- `shutil.ignore_patterns` matches names by glob inside `copytree`. `copytree` itself is an oracle, so this matching is not modelled.
- `os.path.join`, `basename` and `splitdrive` are modelled for drive-letter paths with `\` only. UNC paths, `/` separators and case-insensitive drive letters are not modelled. `abspath` is an oracle.
- Mirror: the filesystem map is case-sensitive, while NTFS compares names ignoring letter case. Only the existence test of `_rename` is modelled case-insensitively, in `Mirror.RenameItemAsWritten` and for ASCII letters only. Elsewhere two spellings of one name are two paths.
- Mirror.RenameItem: it models the intended `_rename` (see Findings), not the code as written on a case-insensitive filesystem. When `_delete` succeeds and `os.rename` then raises, the deletion has happened, but the model's failure result does not record it.
- `ensureParentFolderExists` is not modelled: a copy adds only the file, not the missing parent folders.
- Mirror.Rename: the `World` does not track parent folders, so the `FileNotFoundError` of `os.rename` for a destination whose parent folder is missing is not modelled. In the source, such a move (for example into a new source folder that holds no file yet, so `_create` never made its replica) is only reported, and the replica keeps its old name. `Mirror.RenameItem` and `Mirror.OnMoved` apply the move instead.
- `filecmp.cmp` is modelled as a comparison of contents. Its shortcut that trusts equal size and modification time is not modelled.
- In `Mirror`, an access counts as refused with `PermissionError` exactly when it touches a locked path. Any other refusal the OS might report as `PermissionError` counts as another `OSError`. `rmtree` is all-or-nothing: the partial deletion before a refusal is not modelled.
- Mirror: the handlers' queueing call itself is `Retry.AttemptsManager.QueueAndStartAsWritten`. The event handlers return the action they queue rather than calling it.
- Watching.MatchesIgnore and the exclude pruning compare plain string prefixes, as the code does, so `C:\Docs2` counts as lying under `C:\Docs`. The code and its description differ here, and the model follows the code.

## Findings

| source | as written | input that shows it | evidently intended | confidence | as-written member | corrected member |
|---|---|---|---|---|---|---|
| main.py:516-517 | every permission-error handler calls `QueueCallable` (which re-arms a running timer itself) and then `start()`. On an armed timer `reset_timer` sets `daemon` on a started thread and raises `RuntimeError` | two permission errors in a row, for example two locked files created one after the other: the second handler raises | queue the operation and arm the timer only if it is not armed | not executed | Retry.AttemptsManager.QueueAndStartAsWritten, Retry.SecondQueuedRetryRaises | Retry.AttemptsManager.QueueAndStart, Retry.SecondQueuedRetryQueues |
| main.py:783-788 | each deactivated rule scans the same snapshot of the watcher list, and `watchers.remove` is called for every match, even a watcher that an earlier rule removed | two rules with paths `["C:\Docs"]` and target `E:\Backup`, both deactivated when `E:` goes away: the second rule removes the first watcher again and `list.remove` raises `ValueError` | remove each matching watcher only while it is still listed | not executed | Lifecycle.DeactivateRulesAsWritten, Lifecycle.SharedFolderDeactivationRaises | Lifecycle.DeactivateRules, Lifecycle.SharedFolderDeactivationRemoves |
| main.py:582-586 | `_rename` tests `os.path.exists(targetDestPath)`. On a case-insensitive filesystem, when only letter case changes, that test finds the replica itself. `_delete` then removes the replica, and `os.rename` raises `FileNotFoundError`, which `on_moved` only reports | renaming `C:\data\a.txt` to `C:\data\A.txt` while its replica `D:\backup\data\a.txt` exists: the replica is deleted and not recreated | delete the destination only when it is an entry other than the replica, so the replica is renamed | not executed | Mirror.RenameItemAsWritten, Mirror.CaseOnlyRenameLosesReplica, Mirror.CaseOnlyRenameExample | Mirror.RenameItem, Mirror.CaseOnlyRenameMirrored |
