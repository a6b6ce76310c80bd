# Durable state and lifecycle mechanisms, verified

This project models the durable-state and lifecycle code of an XMPP bot library and its operations
helpers in Dafny, and proves what that code keeps over every input, every run and every interleaving
of failures. Each module follows one source file, or one concern of a large file:

- The outbox queue. `OutboxTable` is the table as a value, with one function or relation per SQL
  statement. `OutboxStore` is the store as an object whose methods are proved against it.
  `OutboxClaims` (fairness), `OutboxCapacity` (limits over runs) and `OutboxLifecycle` (identity,
  removal, claims and attempts over runs) prove properties of every reachable table. `OutboxFields`
  says what the statements do in plain fields of the rows.
  `OutboxDatabase` is the connection adapter: the task-reentrant lock and the stack of savepoints,
  over every interleaving of the tasks' steps.
- Pending room invites. `InviteModel` holds invites as values and the simple expiring map;
  `InviteStore` holds the repository object and the store object with its cache and secondary index.
- Backup and restore. `Archive` (member names, manifest, verifier), `Backup` (builder, stager, round
  trip), `Restore` (prepare, snapshot, apply, validate, rollback) and `Files` (the file system as a
  map). Every file operation and every caller's hook may fail; a rename may fail after it took effect.
  Which operations fail is an argument, so that success is promised too when nothing fails.
- `Closure` and `Constraints`: the dependency closure as a least closed set, and the snapshot check.
- `Cooldown`: the bounded cooldown against an unbounded one; `CooldownHistory`: its rule read off the
  history of calls.
- `Worker`, `TaskModel` and `TaskSupervisor`: heartbeat sleep, restart budget, circuit breaker, the
  two task indexes, cancellation and history.
- `Commands` and `HelpAliases`: command resolution and alias rewriting.
- `Rooms`, `Sessions` (in `Session.dfy`) and `Reconnect`: lifecycle state as a function of the
  history of calls, and the reconnect loop as a protocol over traces.
- `Versions` and `Release`: the version order, announcements and their storage.
- `Wrappers`, `Text`, `Ordering` and `Lexical` hold shared values: options, Python string
  operations, `ORDER BY ... LIMIT`, and the order of tuples.

Code that changes state in place is a class with the source's fields. Its methods are proved equal to
functions on values, and the main theorems are lemmas about those functions. Clock readings, external
outcomes and other tasks' actions are arguments: a `seq` of what the environment shows, or a
nondeterministic choice.

Beside the laws over runs, each operation is stated once more without the functions that define it, in the
fields of its arguments and results: as further `ensures` of the methods, and as lemmas that end in
`InFields`, `InFull`, `Iff` or `Is`.

## Findings

Where a promise fails, a lemma gives a failing input or family and the project states the exact condition.

- `build_backup_archive` accepts names that `ZipFile.write` stores under another name, such as "./a" or
  "b//c"; the manifest then lists a member that is not there and the build fails although the source is
  stable (`DotNameNeverBuilds`). It succeeds in verifying exactly when every archived source keeps its
  name (`StableBuildCleanIff`, `StoredNameIff`).
- Deferring or failing a dead row, and `retry_dead`, bring a row back without a capacity check
  (`DeferCanExceedCapacity`); these are exactly the operations other than `enqueue` that can raise
  usage (`UsageNeverGrowsIff`).
- A blank dedupe key is stored but not looked up before the capacity reads, so a repeated blank key
  counts its own row against the limit (`BlankKeyCountsOwnRow`); the row to be replaced is left out of
  the reads in exactly the other cases (`ReplacedIsExcludedIff`).
- A marker that holds without extras but not under some extra makes the closure depend on the order
  of requirements (`NonMonotoneDependsOnOrder`, `MonotoneIff`).
- A failure can be lost before the callback has recorded it: `cancel_scope`, documented to prune every
  non-failed task, drops a task that has just failed (`CancelScopeLosesFailure`, exactly when:
  `FailureDroppedIff`), and so does the history pruning (`PruneLosesFailure`, exactly when:
  `FailureLostIff`).
- `normalize_version` is not idempotent: "vv1" is stored as "v1" and loaded as "1"
  (`DoubledPrefixIsLost`, `RoundTripIff`, `MappingRoundTripIff`, `CleanStartIsNeeded`).
- `compare_versions` is not transitive once texts without a sort key meet versions with a label or a
  numeric suffix (`AdornedBreaksOrder`); it is a total preorder among versions all with or all without a
  key (`UniformTransitive`), and a version may join the mix exactly when it is plain (`OrderIffPlain`).
- `VersionTransition.changed` is documented as "both versions are known and differ"; it is false for
  "1.0" and "1.0.0", which differ but compare equal, while `merge_pending_version_transition` compares
  texts (`TrailingZeroIsNoChange`, exactly when: `ChangedDocumentedIff`).
- A help alias for itself and more words is rewritten for ever (`GrowingAliasDiverges`,
  `GrowingHasNoAnswer`); a topic has an answer exactly when it has finitely many rewritings
  (`AnsweredIffFinite`).

## Model

| member | source | states |
|---|---|---|
| OutboxStore.OutboxStore.Enqueue | src/envs_xmpp_core/storage/outbox.py:243-356 | An enqueue is an upsert on the dedupe key with four capacity checks that exclude the row it would replace, unless that row is stored under a blank key; the unique indexes survive; success adds one row or updates one, field by field |
| OutboxStore.OutboxStore.ClaimDue | src/envs_xmpp_core/storage/outbox.py:358-407 | The claimed rows were pending and due, with each of them every due row of its destination that is earlier by (available_at, id), and all due rows when fewer than the clamped limit; exactly those rows become inflight and are returned, sorted by (available_at, id) |
| OutboxStore.Deliver | src/envs_xmpp_core/storage/outbox.py:389-407 | Every claimed row is delivered once, as stored, soonest first |
| OutboxFields.MessageReports | src/envs_xmpp_core/storage/outbox.py:389-407 | A message carries the texts, names, counters and times of its row, each in its own place |
| OutboxStore.OutboxStore.RecoverInflight | src/envs_xmpp_core/storage/outbox.py:229-241 | Exactly the rows inflight and locked no later than the clamped cutoff return to pending and lose their lock, and their number is returned |
| OutboxStore.OutboxStore.Defer | src/envs_xmpp_core/storage/outbox.py:409-429 | Only the named row changes: pending, unlocked, due after at least one second, attempts kept |
| OutboxStore.OutboxStore.MarkSent | src/envs_xmpp_core/storage/outbox.py:431-435 | Only the named row leaves |
| OutboxStore.OutboxStore.MarkFailed | src/envs_xmpp_core/storage/outbox.py:437-463 | The row retries, or is dead exactly when the message's attempts are used up |
| OutboxStore.OutboxStore.RetryDead | src/envs_xmpp_core/storage/outbox.py:465-489 | Exactly the selected dead rows are revived, with no attempts used and due now, and the active count rises by the number returned |
| OutboxStore.OutboxStore.Delete | src/envs_xmpp_core/storage/outbox.py:491-496 | The count is the number of rows that left |
| OutboxStore.OutboxStore.DeleteDead | src/envs_xmpp_core/storage/outbox.py:498-503 | Exactly the dead rows leave, and their number is returned |
| OutboxStore.OutboxStore.PruneDead | src/envs_xmpp_core/storage/outbox.py:505-516 | A row leaves exactly when it is dead and died, or for want of that was created, more than a positive number of days ago |
| OutboxStore.RetryDelayDoubles | src/envs_xmpp_core/storage/outbox.py:16-25 | The delay starts at the initial value, doubles with each attempt and saturates at the maximum |
| OutboxFields.EnqueueInFields | src/envs_xmpp_core/storage/outbox.py:318-356 | An accepted draft adds a row with its texts, defaults and a fresh origin, or updates the row of its key: identity and creation time stay, it is due at the earlier of the two times, and a dead row starts over |
| OutboxFields.EnqueueChecks | src/envs_xmpp_core/storage/outbox.py:273-313 | The first limit without room gives the error: messages, bytes, destination, category, counted over the active rows but the one stored under the draft's key |
| OutboxFields.BytesInFields | src/envs_xmpp_core/storage/outbox.py:176-227 | One more active row adds the UTF-8 sizes of its four texts to the bytes in use |
| Text.Utf8SizeIff | src/envs_xmpp_core/storage/outbox.py:176-182 | A character takes one byte below 128, two below 2048, three below 65536 and four otherwise |
| OutboxFields.RecoverInFields | src/envs_xmpp_core/storage/outbox.py:229-241 | A row recovers exactly when it is inflight and was locked at or before now less a non-negative age |
| OutboxFields.RetryInFields | src/envs_xmpp_core/storage/outbox.py:465-489 | Dead rows of the category and id asked for are reset field by field, and all other rows stay |
| OutboxFields.ClaimInFields | src/envs_xmpp_core/storage/outbox.py:358-388 | Claimed rows were pending and due; what is earlier in the same destination is claimed too; the number is the lesser of the due rows and the limit clamped to 1..200 |
| OutboxFields.ClaimOrder | src/envs_xmpp_core/storage/outbox.py:363-388 | A claimed row has fewer earlier due rows in its destination than a due row left out, or as many and an earlier time, or the same time and a lower id |
| OutboxClaims.ClaimUnique | src/envs_xmpp_core/storage/outbox.py:358-388 | The claim statement has one answer |
| OutboxClaims.ClaimIsPrefixOfDestination | src/envs_xmpp_core/storage/outbox.py:358-388 | Within a destination, a due row with an earlier available_at than a claimed one, or the same and a lower id, is claimed |
| OutboxClaims.ClaimIsFair | src/envs_xmpp_core/storage/outbox.py:358-388 | For any two destinations, claimed(e) is at least min(due(e), claimed(d) - 1) |
| OutboxClaims.ClaimServesEveryDestination | src/envs_xmpp_core/storage/outbox.py:358-388 | A limit of at least the number of due destinations serves each of them |
| OutboxCapacity.StepKeepsWellFormed | src/envs_xmpp_core/storage/outbox.py:135-174 | Every operation keeps the two unique indexes and never reuses an id |
| OutboxCapacity.UsageIsCount | src/envs_xmpp_core/storage/outbox.py:184-227 | The aggregates read before an insert count exactly the active rows of their kind |
| OutboxCapacity.PayloadMatchesTable | src/envs_xmpp_core/storage/outbox.py:176-182 | The bytes checked before an insert are those the table reports for the row afterwards |
| OutboxCapacity.CapacityErrorIff | src/envs_xmpp_core/storage/outbox.py:283-313 | No limit is reported exactly when the row fits all four on top of the others |
| OutboxCapacity.EnqueueStaysWithin | src/envs_xmpp_core/storage/outbox.py:243-356 | An accepted enqueue keeps all figures within limits, also when it moves or revives a row |
| OutboxCapacity.RefusedEnqueue | src/envs_xmpp_core/storage/outbox.py:283-313 | From any table, within its limits or not: a refused enqueue changes nothing, and refusal for capacity happens exactly when the row does not fit |
| OutboxCapacity.ReplacedIsExcludedIff | src/envs_xmpp_core/storage/outbox.py:273-283 | The capacity reads exclude the row the upsert replaces unless the key is blank and a row is stored under a blank key |
| OutboxCapacity.BlankKeyCountsOwnRow | src/envs_xmpp_core/storage/outbox.py:261-287 | A full queue refuses to replace its own live row under a blank key, although without that row there is room |
| OutboxCapacity.CapacityOverRun | src/envs_xmpp_core/storage/outbox.py:184-356 | Every reachable table of a run with fixed limits and no unchecked revival is within all four limits |
| OutboxCapacity.EmptyIsWithin | src/envs_xmpp_core/storage/outbox.py:135-174 | The run may start from the empty table |
| OutboxCapacity.UsageNeverGrowsIff | src/envs_xmpp_core/storage/outbox.py:409-489 | Apart from enqueue, an operation can raise usage exactly when it revives a dead row |
| OutboxCapacity.RetryDeadRaises | src/envs_xmpp_core/storage/outbox.py:465-489 | The active count rises by exactly the number of revived rows |
| OutboxCapacity.DeferCanExceedCapacity | src/envs_xmpp_core/storage/outbox.py:409-429 | With room for one message, deferring a dead row leaves two active |
| OutboxLifecycle.IdentityOverRun | src/envs_xmpp_core/storage/outbox.py:318-356 | id, dedupe key, origin id and creation time never change while a row exists, and a removed id never returns |
| OutboxLifecycle.RemovalIff | src/envs_xmpp_core/storage/outbox.py:431-435 | One step removes a row exactly when a removal statement names it |
| OutboxLifecycle.RowLeavesByRemoval | src/envs_xmpp_core/storage/outbox.py:491-516 | Over a run, a row that is gone was named by a removal in between |
| OutboxLifecycle.BulkRemovalOnlyDead | src/envs_xmpp_core/storage/outbox.py:498-516 | Bulk removals take only dead rows, and pruning only those older than the retention |
| OutboxLifecycle.MarkedOverRun | src/envs_xmpp_core/storage/outbox.py:358-463 | In every reachable table a row is inflight exactly when locked, and a dead row has its time of death |
| OutboxLifecycle.InflightUntilReleased | src/envs_xmpp_core/storage/outbox.py:358-407 | A claimed row stays inflight with its attempts until something releases it |
| OutboxLifecycle.ClaimsAreExclusive | src/envs_xmpp_core/storage/outbox.py:229-241 | Between two claims of a row lies a defer, a failure or a recovery of it |
| OutboxLifecycle.LiveClaimAccurate | src/envs_xmpp_core/storage/outbox.py:437-463 | A worker's live claim still has the row's attempts and maximum |
| OutboxLifecycle.AttemptsOverRun | src/envs_xmpp_core/storage/outbox.py:437-463 | When every settlement acts on a live claim, live rows have attempts left and dead rows have used exactly all |
| OutboxDatabase.AsyncConnectionOutboxDatabase.Acquire | src/envs_xmpp_core/storage/outbox.py:65-73 | The owner re-enters one level deeper, anyone else takes the free lock; the result tells which |
| OutboxDatabase.AsyncConnectionOutboxDatabase.Release | src/envs_xmpp_core/storage/outbox.py:75-80 | Leaving the use that took the lock frees it, leaving an inner one does not |
| OutboxDatabase.AsyncConnectionOutboxDatabase.Begin | src/envs_xmpp_core/storage/outbox.py:82-92 | The savepoint's name is new among those open |
| OutboxDatabase.AsyncConnectionOutboxDatabase.End | src/envs_xmpp_core/storage/outbox.py:93-102 | A failed transaction goes back to its own savepoint, a successful one keeps the data; either drops that savepoint |
| OutboxDatabase.RunKeepsSound | src/envs_xmpp_core/storage/outbox.py:58-102 | Under every interleaving only the owner is inside, the depth counts its uses, and the savepoints are those of its open transactions |
| OutboxDatabase.Isolation | src/envs_xmpp_core/storage/outbox.py:65-80 | While a task is inside, every step that happens is its own |
| OutboxDatabase.EnterIff | src/envs_xmpp_core/storage/outbox.py:65-73 | A task may enter exactly when no other task is inside |
| OutboxDatabase.InsideIff | src/envs_xmpp_core/storage/outbox.py:82-102 | Inside, a use opens a transaction or ends where none is open, and is written or closed where one is |
| OutboxDatabase.RollbackRestores | src/envs_xmpp_core/storage/outbox.py:82-102 | A failing transaction brings back data and savepoints of its opening, whatever nested transactions did in between |
| OutboxDatabase.WithoutRollbackWritesStay | src/envs_xmpp_core/storage/outbox.py:82-102 | Where no transaction fails, the data after any interleaving is what was written last |
| InviteModel.NormalKeyIdempotent | src/envs_xmpp_core/xmpp/pending_invites.py:36-46 | Normalizing a stored key again changes nothing |
| InviteModel.NormalKeyIs | src/envs_xmpp_core/xmpp/pending_invites.py:36-46 | Room and inviter are stripped and lowered, and a blank inviter is unknown |
| Text.StripIff | src/envs_xmpp_core/xmpp/pending_invites.py:38-39 | Stripping takes off the white space at both ends, all of it and nothing else |
| Text.LowerLetters | src/envs_xmpp_core/xmpp/pending_invites.py:38-39 | Lowering maps each capital letter to its small one and leaves everything else |
| InviteModel.DeliveredRefines | src/envs_xmpp_core/xmpp/pending_invites.py:467-526 | Storing on rows is a delivery on the simple map from (room, inviter) to one invite |
| InviteModel.ReplacementIsUpdate | src/envs_xmpp_core/xmpp/pending_invites.py:386-393 | Replacing a key's row by one under a new id updates that key of the simple map alone |
| InviteModel.DuplicatesKeepFirst | src/envs_xmpp_core/xmpp/pending_invites.py:467-526 | Over any deliveries, an unexpired invite keeps id, reason and timestamp, and no duplicate is reported as created |
| InviteModel.ExpiryPartition | src/envs_xmpp_core/xmpp/pending_invites.py:548-559 | Expired and unexpired rows partition the rows |
| InviteModel.NothingExpires | src/envs_xmpp_core/xmpp/invites.py:202-224 | Without a positive age limit nothing expires |
| InviteStore.Repository.InsertIfAbsent | src/envs_xmpp_core/xmpp/pending_invites.py:230-255 | A row is created exactly when its key is absent; otherwise the existing row is returned unchanged |
| InviteStore.Repository.Delete | src/envs_xmpp_core/xmpp/pending_invites.py:266-284 | Exactly the named rows leave, and their number is returned |
| InviteStore.FirstPerKeyUnique | src/envs_xmpp_core/xmpp/pending_invites.py:374-384 | Keeping the lowest id of each key leaves unique keys, and everything when keys were unique |
| InviteStore.Rebuild | src/envs_xmpp_core/xmpp/pending_invites.py:374-384 | The rebuilt cache is the lowest id of each key, its index agrees with it, and the next id is above all ids |
| InviteStore.InviteStore.Adopt | src/envs_xmpp_core/xmpp/pending_invites.py:361-372 | Adopted state becomes a coherent cache that is a part of the repository |
| InviteStore.InviteStore.ReplaceCache | src/envs_xmpp_core/xmpp/pending_invites.py:374-384 | Cache, index and next id agree after a rebuild |
| InviteStore.InviteStore.Cache | src/envs_xmpp_core/xmpp/pending_invites.py:386-393 | Caching an invite replaces the same key's earlier entry and keeps index[k]=i exactly when pending[i] has key k |
| InviteStore.InviteStore.Load | src/envs_xmpp_core/xmpp/pending_invites.py:401-441 | Exactly the rows with a positive age limit, a positive timestamp and more than that many days of age leave, the cache becomes the contents, and both counts are right |
| InviteStore.InviteStore.Store | src/envs_xmpp_core/xmpp/pending_invites.py:443-526 | Store is a delivery on the simple map; an invite is created exactly when each earlier one under the same names is too old, which it then replaces, and all others stay |
| InviteStore.InviteStore.Insert | src/envs_xmpp_core/xmpp/pending_invites.py:490-526 | With no cached entry, the repository's unexpired row wins, an expired one is replaced |
| InviteStore.InviteStore.Delete | src/envs_xmpp_core/xmpp/pending_invites.py:528-546 | Deleting returns the stored invite, if any, and removes it from cache, index and repository |
| InviteStore.InviteStore.CleanupExpired | src/envs_xmpp_core/xmpp/pending_invites.py:548-559 | Exactly the invites older than a positive age limit leave, and their number is returned |
| InviteStore.InviteStore.Clear | src/envs_xmpp_core/xmpp/pending_invites.py:561-573 | Everything leaves, and the number of stored invites is returned |
| Restore.Disk.Normalize | src/envs_xmpp_core/storage/restore.py:86-104 | A plan is accepted exactly when it is non-empty, its sources are files, and names and targets are distinct |
| Restore.AcceptableIff | src/envs_xmpp_core/storage/restore.py:86-104 | A plan is rejected exactly when it is empty, or a name is empty, a source not a file, or a name or target used twice |
| Restore.Disk.ReplaceFile | src/envs_xmpp_core/storage/restore.py:107-131 | Success leaves the source's bytes in the target and touches nothing else; without a failure it succeeds exactly when the source is a file and the target is not a directory |
| Restore.Disk.SnapshotTargets | src/envs_xmpp_core/storage/restore.py:134-161 | Success records each target's presence and keeps a copy of its bytes; nothing but the copies is written; without failures and directories in the way it succeeds |
| Restore.Disk.ApplyFiles | src/envs_xmpp_core/storage/restore.py:164-175 | Success publishes every source's bytes; only targets are written; an acceptable plan without failures and directories in the way succeeds |
| Restore.Disk.RollbackTargets | src/envs_xmpp_core/storage/restore.py:178-202 | Success after faithful snapshots leaves every target as it was, present or absent; without failures and directories in the way it succeeds |
| Restore.Disk.Publish | src/envs_xmpp_core/storage/restore.py:247-272 | Prepare, snapshot, apply and validate in order: the phase reached tells what was written, and without failures the first error can only be a hook's own |
| Restore.Disk.Undo | src/envs_xmpp_core/storage/restore.py:273-300 | A rollback without errors leaves every target as it was before; without failures its only error is the hook's own |
| Restore.Disk.RunRestore | src/envs_xmpp_core/storage/restore.py:235-300 | Whatever fails: success publishes, an early failure touches only copies, a late one always attempts rollback and without a rollback error restores every target; hooks are blamed for their own errors. When nothing fails the restore of an acceptable plan succeeds, and when nothing fails during a rollback its errors are the hook's own |
| Restore.AllOrNothing | src/envs_xmpp_core/storage/restore.py:235-333 | With quiet hooks the final targets are all published, or all unchanged, or a rollback error is recorded, and a complete rollback is reported only when they are unchanged |
| Restore.ReportIff | src/envs_xmpp_core/storage/restore.py:315-333 | The report is about the rollback exactly when something may have been published, complete exactly without an error of it or of the hook after it; otherwise about the recovery hook |
| Restore.OwnErrorWins | src/envs_xmpp_core/storage/restore.py:213-222 | A thread that failed is blamed even if the wait was cancelled; nothing is raised exactly when it succeeded and nobody cancelled |
| Restore.CopiesDistinct | src/envs_xmpp_core/storage/restore.py:134-161 | Snapshot copies of different targets never share a path |
| Files.NumberedNamesDiffer | src/envs_xmpp_core/storage/restore.py:134-161 | Zero-padded numbered names differ for different numbers, whatever follows |
| Files.NumberedNameIs | src/envs_xmpp_core/storage/restore.py:150 | The number is written with at least three digits, then a dash and the name |
| Archive.CheckMembers | src/envs_xmpp_core/storage/backup.py:199-222 | No error exactly for safe, unique, undamaged members |
| Archive.CheckRequired | src/envs_xmpp_core/storage/backup.py:237-244 | No error exactly when every required name is safe and present |
| Archive.CheckFields | src/envs_xmpp_core/storage/backup.py:246-252 | No error exactly when every expected manifest field has its value |
| Archive.CheckEntry | src/envs_xmpp_core/storage/backup.py:262-300 | An entry passes exactly when it is well formed, new, present and matches its size and digest |
| Archive.CheckEntries | src/envs_xmpp_core/storage/backup.py:254-302 | All entries are visited; no error exactly when each is clean |
| Archive.Verify | src/envs_xmpp_core/storage/backup.py:182-311 | Verification reports no error exactly for clean archives, whatever is wrong and however often; then no member, required or listed name is absolute or climbs to a parent directory |
| Archive.SafeNameIff | src/envs_xmpp_core/storage/archive.py:18-33 | A name is safe exactly when it is not empty, has no NUL, is not absolute, has no drive or share, and has no .. between separators, for slashes alone and for both kinds |
| Archive.CleanIff | src/envs_xmpp_core/storage/backup.py:182-311 | Clean means: all members safe, intact and different, the required ones there, and a manifest object with the expected fields and clean entries, or without entries if that is allowed |
| Archive.EntryCleanIff | src/envs_xmpp_core/storage/backup.py:262-300 | An entry is clean exactly when it is the first to name some member, safely, and gives its size and digest as far as it gives any |
| Archive.FindUnique | src/envs_xmpp_core/storage/archive.py:44-73 | With unique names, a name resolves to its own member |
| Backup.CheckPlan | src/envs_xmpp_core/storage/backup.py:324-336 | A plan is accepted exactly when member names are safe and distinct and none is the manifest's |
| Backup.OriginOf | src/envs_xmpp_core/storage/backup.py:338-375 | The k-th member and the k-th manifest entry describe the same present source: name, origin, size and digest |
| Backup.MissingIff | src/envs_xmpp_core/storage/backup.py:356-360 | The manifest lists as missing exactly the sources that were absent, by name and origin |
| Backup.BaseNameIs | src/envs_xmpp_core/storage/backup.py:454 | The staged file is named after the last component of the member, passing over trailing slashes and dots |
| Backup.BaseNameAlone | src/envs_xmpp_core/storage/backup.py:454 | A member without a slash is staged under its own name |
| Backup.ManifestKeeps | src/envs_xmpp_core/storage/backup.py:338-342 | The manifest given is kept but for the two lists |
| Backup.StableBuildCleanIff | src/envs_xmpp_core/storage/backup.py:351-385 | With stable sources the archive just built verifies clean exactly when every archived source is stored under its own name |
| Backup.CleanKeepsNames | src/envs_xmpp_core/storage/backup.py:351-385 | Stable or not, a clean archive has stored every source under its own name |
| Backup.DotNameNeverBuilds | src/envs_xmpp_core/storage/backup.py:328-385 | The name ./a is accepted by the plan and never gives a clean archive |
| Archive.StoredNameIff | src/envs_xmpp_core/storage/backup.py:362 | Storing keeps a name exactly when none of its components is empty or a dot, or it is the dot itself; a stored name is stored as it is |
| Backup.CleanBuildIsConsistent | src/envs_xmpp_core/storage/backup.py:351-385 | A clean archive records the size and digest of the bytes it holds, whatever the sources did meanwhile |
| Backup.Vault.Build | src/envs_xmpp_core/storage/backup.py:314-396 | Only a clean archive is ever published; an earlier failure leaves the destination alone; without failures the build succeeds exactly when the plan is in order, no required source is missing and the archive is clean |
| Backup.CheckStagePlan | src/envs_xmpp_core/storage/backup.py:416-433 | A staging plan is accepted exactly when it is non-empty, keys are non-empty and distinct, and members are safe and distinct |
| Backup.StagePlanIff | src/envs_xmpp_core/storage/backup.py:416-433 | A staging plan is rejected exactly when it is empty, or a key is empty, a member unsafe, or a key or member used twice |
| Backup.Stage | src/envs_xmpp_core/storage/backup.py:399-472 | Nothing is extracted unless the whole archive verifies; success stages every declared member under its own path; without failures and directories in the way a clean archive is staged |
| Backup.Extract | src/envs_xmpp_core/storage/backup.py:446-465 | Each declared member present is extracted with its bytes, absent optional ones are reported as absent; without failures and directories in the way it succeeds |
| Backup.StagedIsBuildTime | src/envs_xmpp_core/storage/backup.py:399-472 | The staged copy of a source present at build time holds its build-time bytes |
| Backup.BackUpAndRestore | src/envs_xmpp_core/storage/backup.py:314-472 | Build, stage and restore in sequence: success puts build-time bytes in every target restored from a stable source, whatever the files became between build and staging; without failures a plan of stable, plainly named sources reaches the restore |
| Backup.BackupRoundTrip | src/envs_xmpp_core/storage/backup.py:399-472 | A target published from the stage holds the bytes its source had when the archive was built |
| Closure.MonotoneIff | src/envs_xmpp_ops/constraints.py:54-64 | A marker never loses a dependency as extras grow exactly when holding without extras implies holding under each |
| Closure.DependencyClosure | src/envs_xmpp_ops/constraints.py:67-106 | The walk always ends; success returns the versions of the roots and of all they bring: a dependency without a marker, or with one that holds for a requested extra, or for none when none is requested. For monotone markers nothing else is returned, and failure names something not installed that every closed set needs |
| Closure.ClosedInFull | src/envs_xmpp_ops/constraints.py:54-106 | A set is closed exactly when it has what the roots ask for and what the dependencies in force of its distributions ask for, case by case |
| Closure.LeastIsSupported | src/envs_xmpp_ops/constraints.py:67-106 | For monotone markers everything in the least closed set is asked for by a root or by a dependency in force of something in it |
| Closure.NewsIsUnprocessed | src/envs_xmpp_ops/constraints.py:84-99 | The processed guard never fires |
| Closure.NewsStep | src/envs_xmpp_ops/constraints.py:78-106 | Each request that adds something enlarges the known facts within a finite universe, which bounds the walk |
| Closure.DoneIsClosed | src/envs_xmpp_ops/constraints.py:67-106 | With an empty queue the facts are closed, and least for monotone markers |
| Closure.LeastClosedUnique | src/envs_xmpp_ops/constraints.py:67-106 | There is at most one least closed set |
| Closure.LeastClosedExists | src/envs_xmpp_ops/constraints.py:67-106 | For monotone markers there is one |
| Closure.LeastClosedIgnoresOrder | src/envs_xmpp_ops/constraints.py:67-106 | It does not depend on the order or repetition of requirements |
| Closure.FailsIffUninstalled | src/envs_xmpp_ops/constraints.py:67-106 | The walk fails exactly when the least closed set needs something not installed |
| Closure.NonMonotoneDependsOnOrder | src/envs_xmpp_ops/constraints.py:54-106 | Every non-monotone marker has an environment in which two orders of the roots give different closures |
| Constraints.CheckConstraints | src/envs_xmpp_ops/constraints.py:109-122 | The errors are exactly the discrepancies, in sorted order, missing and differing pins before stale ones; none exactly when the pins equal the closure |
| Cooldown.KeyedCooldown.Check | src/envs_xmpp_core/runtime/suppression.py:45-73 | A check within a positive window of the last allowed one is denied and counts, keeping that time; any other is allowed, reports the denials and starts over; the key becomes the most recent and the rest is trimmed |
| Cooldown.KeyedCooldown.Trim | src/envs_xmpp_core/runtime/suppression.py:40-43 | Trimming drops the least recently touched keys down to the limit |
| Cooldown.KeyedCooldown.Forget | src/envs_xmpp_core/runtime/suppression.py:75-77 | Only the named key is forgotten, and with it its entry |
| Cooldown.TrimFacts | src/envs_xmpp_core/runtime/suppression.py:40-43 | A trimmed key has at least as many keys touched after it as the limit, and the others are untouched |
| Cooldown.NeverExceedsLimit | src/envs_xmpp_core/runtime/suppression.py:40-84 | No reachable state holds more than the limit |
| Cooldown.RunsAgree | src/envs_xmpp_core/runtime/suppression.py:40-80 | For a recurrent key the bounded entry is the unbounded one, as long as fewer than the limit other keys were checked since |
| Cooldown.DecisionsAgree | src/envs_xmpp_core/runtime/suppression.py:45-73 | Every decision and every reported count for a recurrent key equals the unbounded model's |
| Cooldown.HeldIff | src/envs_xmpp_core/runtime/suppression.py:40-73 | A checked key is held exactly while fewer than the limit others were checked since |
| Cooldown.DenialsAccounted | src/envs_xmpp_core/runtime/suppression.py:45-73 | Denials equal the counts reported at allowed checks plus the stored one |
| CooldownHistory.DeniedIff | src/envs_xmpp_core/runtime/suppression.py:45-73 | For a recurrent key a check is denied exactly when its window is positive and the last allowed check, not forgotten since, is less than the window ago; it reports the denials since that check |
| CooldownHistory.KnownIff | src/envs_xmpp_core/runtime/suppression.py:75-80 | Without a limit a key is known exactly when it was checked and neither forgotten nor cleared since |
| CooldownHistory.SinceIff | src/envs_xmpp_core/runtime/suppression.py:40-73 | The keys touched since are those checked after the last check of the key |
| Worker.IntervalBelowThreshold | src/envs_xmpp_core/runtime/tasks.py:81-93 | The heartbeat interval is at most half of any threshold of at least a tenth of a second |
| Worker.IntervalIs | src/envs_xmpp_core/runtime/tasks.py:81-93 | The interval is half the threshold, cut off at the maximum, and a twentieth of a second when either is smaller |
| Worker.SleepWithHeartbeat | src/envs_xmpp_core/runtime/tasks.py:101-117 | A delay is slept in finitely many slices that add up to it exactly, none longer than the interval |
| Worker.RunWorker | src/envs_xmpp_core/runtime/tasks.py:241-365 | For any arguments and however the runs end, restart count, recorded error, circuit and pauses follow the streak of failures; half-open exactly while a restart time is set |
| Worker.ToldInFields | src/envs_xmpp_core/runtime/tasks.py:309-365 | Each pause follows a run that raised, or returned although the worker is a service, shows its error, the number of failures and the time of the restart, and lasts the backoff of a streak within the limit; an open circuit shows the last failure, of a longer streak |
| Worker.StreakSince | src/envs_xmpp_core/runtime/tasks.py:323-326 | The streak counts the failures from the last run of at least a positive reset time on, or all of them |
| Worker.ClampedIs | src/envs_xmpp_core/runtime/tasks.py:254-257 | The arguments are clamped to non-negative ones, the maximum to no less than the initial delay |
| Worker.RestartBudget | src/envs_xmpp_core/runtime/tasks.py:294-365 | With k resets a worker fails at most limit*(k+1)+1 times |
| Worker.CircuitOpensWithinBudget | src/envs_xmpp_core/runtime/tasks.py:322-338 | The circuit opens within that budget, and without resets at failure limit+1 exactly |
| Worker.BackoffGrows | src/envs_xmpp_core/runtime/tasks.py:339-345 | The first failure of a burst waits the initial delay; then delays double up to the maximum and never shrink |
| TaskModel.ReachableConsistent | src/envs_xmpp_core/runtime/tasks.py:196-239 | In every reachable state each scope's members are tracked with that scope and every running task is in its scope's set |
| TaskModel.ApplyConsistent | src/envs_xmpp_core/runtime/tasks.py:367-431 | Every event keeps the two indexes in step |
| TaskModel.EventInFields | src/envs_xmpp_core/runtime/tasks.py:294-345 | A task ends once, its callback is then due, and only records of running tasks change |
| TaskModel.CancelScopeAsks | src/envs_xmpp_core/runtime/tasks.py:533-571 | Every task running in the scope is asked to cancel, and the two indexes stay in step |
| TaskModel.WaitIs | src/envs_xmpp_core/runtime/tasks.py:545-551 | The tasks asked are exactly those that run in the scope, and there is a wait exactly when there are any |
| TaskModel.CancelScopeDrops | src/envs_xmpp_core/runtime/tasks.py:545-570 | Exactly the tasks found in the scope that are done after the wait, and are cancelled or have no recorded error, are dropped; the other records stay |
| TaskModel.DropInFields | src/envs_xmpp_core/runtime/tasks.py:425-431 | Dropping tasks that are done spares those with a recorded error unless they were cancelled, and clearing failures takes just these |
| TaskModel.FailureDroppedIff | src/envs_xmpp_core/runtime/tasks.py:425-431 | In every reachable state a failed task of the scope is dropped exactly when its error is not recorded yet, which is only before its callback has run |
| TaskModel.CancelScopeLosesFailure | src/envs_xmpp_core/runtime/tasks.py:533-571 | A task that failed just before the call is dropped with its failure |
| TaskModel.CancelAllAsks | src/envs_xmpp_core/runtime/tasks.py:590-600 | Every task running at the call is asked to cancel unless it finishes first, whatever happens while scopes are awaited |
| TaskModel.PruneExactly | src/envs_xmpp_core/runtime/tasks.py:403-412 | Pruning drops exactly the completed one-shots that have fifty later ones |
| TaskModel.PrunedIff | src/envs_xmpp_core/runtime/tasks.py:403-412 | A tracked task is pruned exactly when it is a one-shot that succeeded or failed without a recorded error and at least fifty such tasks were created after it |
| TaskModel.HistoryBounded | src/envs_xmpp_core/runtime/tasks.py:367-412 | In every reachable state at most fifty successful one-shots whose callback has run remain |
| TaskModel.FailureLostIff | src/envs_xmpp_core/runtime/tasks.py:403-412 | A failed one-shot is pruned exactly when its failure is not recorded yet and fifty later ones completed |
| TaskModel.PruneLosesFailure | src/envs_xmpp_core/runtime/tasks.py:367-412 | Reachable: fifty later one-shots succeed before the failure, and the first callback to run drops it |
| TaskSupervisor.TaskSupervisor.Create | src/envs_xmpp_core/runtime/tasks.py:196-239 | A created task is new and in both indexes |
| TaskSupervisor.TaskSupervisor.ForgetTask | src/envs_xmpp_core/runtime/tasks.py:414-423 | The task leaves both indexes, and an emptied scope its entry |
| TaskSupervisor.TaskSupervisor.PruneCompletedHistory | src/envs_xmpp_core/runtime/tasks.py:403-412 | The loop drops the same tasks as the declarative rule |
| TaskSupervisor.TaskSupervisor.OnTaskDone | src/envs_xmpp_core/runtime/tasks.py:367-401 | The callback stamps the record; a failure is recorded, a service that was expected to exit is forgotten, a successful one-shot starts the pruning, and a cancelled task is only stamped |
| TaskSupervisor.TaskSupervisor.CancelScope | src/envs_xmpp_core/runtime/tasks.py:533-571 | Asks the running tasks of the scope, waits, prunes those done that are cancelled or have no recorded error, and returns how many were asked |
| TaskSupervisor.TaskSupervisor.ClearScopeFailures | src/envs_xmpp_core/runtime/tasks.py:573-588 | Exactly the completed failures of the scope are forgotten and counted |
| TaskSupervisor.TaskSupervisor.CancelAll | src/envs_xmpp_core/runtime/tasks.py:590-600 | Every task running at the call has been asked or is done when it returns; the result adds up the tasks asked in each scope when its turn came |
| Commands.ResolveLongest | src/envs_xmpp_core/commands.py:137-148 | The longest registered prefix wins, the rest keeps its case, and nothing is found exactly when no prefix is registered |
| Commands.BuildIndex | src/envs_xmpp_core/commands.py:166-183 | The index holds, for each token sequence, the first candidate among those with the longest root |
| Commands.ResolveStructured | src/envs_xmpp_core/commands.py:152-188 | Of all registered invocations that begin the topic, whatever its case, the longest is returned, then the longest command, then the first registered, with the words after it; none exactly when none begins it |
| Commands.InvokesIff | src/envs_xmpp_core/commands.py:152-183 | A subcommand is invoked by the words of its command and of its name, lowered, unless that name is empty or begins like a documentation placeholder |
| Commands.TextTopic | src/envs_xmpp_core/commands.py:130-134 | For a topic given as text the words are the text's own |
| Text.SpacesAre | src/envs_xmpp_core/commands.py:130-134 | Words are separated by the characters Python counts as white space |
| HelpAliases.NormalIff | src/envs_xmpp_core/commands.py:197-215 | Rewriting stops exactly when no prefix is an alias |
| HelpAliases.RewriteIff | src/envs_xmpp_core/commands.py:197-215 | One rewriting puts the lowered words of the target in place of the longest prefix that is an alias |
| HelpAliases.RewriteShrinks | src/envs_xmpp_core/commands.py:197-215 | When no target is longer than its alias, a rewrite never adds words |
| HelpAliases.NonGrowingIsFinite | src/envs_xmpp_core/commands.py:197-215 | Then every topic has a finite space of rewritings |
| HelpAliases.ResolveHelpTopic | src/envs_xmpp_core/commands.py:197-215 | Whenever the topic has an answer the loop ends with it: the first rewriting that is empty, a normal form, or seen before and so on a rewrite cycle |
| HelpAliases.AnsweredIffFinite | src/envs_xmpp_core/commands.py:197-215 | A topic has an answer exactly when it has finitely many rewritings |
| HelpAliases.EndUnique | src/envs_xmpp_core/commands.py:197-215 | That answer is unique |
| HelpAliases.GrowingAliasDiverges | src/envs_xmpp_core/commands.py:197-215 | A topic that begins with an alias for itself and more words, with no longer alias beginning with it, never repeats a state and never reaches a normal form |
| HelpAliases.GrowingHasNoAnswer | src/envs_xmpp_core/commands.py:197-215 | So it has infinitely many rewritings and no answer |
| HelpAliases.DoublingGrows | src/envs_xmpp_core/commands.py:197-215 | The alias a for a a is one of these |
| Rooms.GenerationByHistory | src/envs_xmpp_core/runtime/rooms.py:139-155 | Every entry carries the registry's generation, which counts the sessions begun |
| Rooms.LeavingByHistory | src/envs_xmpp_core/runtime/rooms.py:133-159 | A room is leaving exactly while its last leave stands |
| Rooms.JoinedIffConfirmed | src/envs_xmpp_core/runtime/rooms.py:82-106 | A room is joined, with a nick, exactly when the last state-changing call about it is an accepted confirmation |
| Rooms.AttemptsByHistory | src/envs_xmpp_core/runtime/rooms.py:82-87 | Attempts count the joins since the last reset |
| Rooms.FailuresByHistory | src/envs_xmpp_core/runtime/rooms.py:114-123 | Failures count those outside a leave since the last accepted confirmation or reset |
| Rooms.RoomLifecycleRegistry.ConfirmSelfPresence | src/envs_xmpp_core/runtime/rooms.py:89-106 | A confirmation is taken exactly for the current generation, a room not leaving and a non-blank nick |
| Rooms.RoomLifecycleRegistry.Configure | src/envs_xmpp_core/runtime/rooms.py:64-68 | A known room is left as it is, a new one is configured, an empty name is an error |
| Rooms.RoomLifecycleRegistry.BeginJoin | src/envs_xmpp_core/runtime/rooms.py:82-87 | The room is joining, without nick, retry time and reason, with one attempt more; other rooms stay |
| Rooms.RoomLifecycleRegistry.MarkFailed | src/envs_xmpp_core/runtime/rooms.py:114-123 | A room that is not leaving has failed, with reason, retry time and one failure more; other rooms stay, and so does a leaving one |
| Rooms.RoomLifecycleRegistry.NewSession | src/envs_xmpp_core/runtime/rooms.py:139-155 | A new generation resets every room but keeps leave intents |
| Rooms.RoomLifecycleRegistry.Snapshots | src/envs_xmpp_core/runtime/rooms.py:73-74 | All rooms once, in order of their names |
| Sessions.CountsByHistory | src/envs_xmpp_core/runtime/session.py:86-98 | Generations count the sessions begun; reconnects are max(0, generation - 1) |
| Sessions.CurrentIff | src/envs_xmpp_core/runtime/session.py:82-146 | A generation is current exactly when it began and nothing that ends it followed |
| Sessions.RetiredForever | src/envs_xmpp_core/runtime/session.py:82-146 | An issued generation that stopped being current never becomes current again |
| Sessions.StaleWorkIsInvisible | src/envs_xmpp_core/runtime/session.py:100-129 | A guarded call of a session that is not current can be removed from any history without effect |
| Sessions.ReadyIff | src/envs_xmpp_core/runtime/session.py:109-121 | The session is ready exactly when its readiness was accepted and nothing has undone it |
| Sessions.StatesAreCoherent | src/envs_xmpp_core/runtime/session.py:58-146 | Phase, error, start and disconnect fields fit the state in every history |
| Sessions.SessionLifecycleState.Begin | src/envs_xmpp_core/runtime/session.py:86-98 | The new generation is current and every earlier one is not |
| Sessions.SessionLifecycleState.BeginPhase | src/envs_xmpp_core/runtime/session.py:100-107 | Returns whether the caller was current, and changes nothing when it was not |
| Sessions.SessionLifecycleState.MarkReady | src/envs_xmpp_core/runtime/session.py:109-121 | Likewise; the startup duration is never negative |
| Sessions.SessionLifecycleState.MarkFailed | src/envs_xmpp_core/runtime/session.py:123-129 | Likewise; the error is its text or its type's name |
| Sessions.SessionLifecycleState.MarkReconnecting | src/envs_xmpp_core/runtime/session.py:131-138 | No generation is current afterwards; a given reason replaces the last |
| Sessions.SessionLifecycleState.MarkDisconnected | src/envs_xmpp_core/runtime/session.py:140-146 | No generation is current afterwards; the reason is replaced or cleared |
| Reconnect.RunReconnectLoop | src/envs_xmpp_core/runtime/reconnect.py:48-112 | For every environment the trace follows the protocol, with delays in closed form, and ends where it must |
| Reconnect.TraceUnique | src/envs_xmpp_core/runtime/reconnect.py:53-112 | The protocol fixes the trace: two traces for one environment agree |
| Reconnect.FateUnique | src/envs_xmpp_core/runtime/reconnect.py:53-112 | It also fixes where the trace ends and how |
| Reconnect.SeenIs | src/envs_xmpp_core/runtime/reconnect.py:53-112 | Every event reports what the environment showed in its pass, and a new pass begins exactly after a failed connection or a disconnect |
| Reconnect.FateIff | src/envs_xmpp_core/runtime/reconnect.py:54-112 | The loop returns exactly on seeing shutdown or readiness, and is left by an exception exactly at a cancelled sleep, an interrupted connection, an interrupted wait or a failing disconnect |
| Reconnect.WaitIff | src/envs_xmpp_core/runtime/reconnect.py:67-104 | A wait ends in readiness exactly when the event was set last since it was cleared, or is set in time |
| Reconnect.ReturnIsEarned | src/envs_xmpp_core/runtime/reconnect.py:54-104 | The loop returns only after seeing shutdown or readiness; after its own connection, readiness signalled since it cleared the event |
| Reconnect.ConnectIsGuarded | src/envs_xmpp_core/runtime/reconnect.py:54-90 | A connection is opened only after the delay, with no shutdown and no started session seen in that pass |
| Reconnect.AcceptedIsAwaited | src/envs_xmpp_core/runtime/reconnect.py:86-111 | An accepted connection is waited for, and disconnected when it times out |
| Reconnect.ExpiredIsDisconnectedOnce | src/envs_xmpp_core/runtime/reconnect.py:67-112 | A timed-out attempt is followed by exactly one disconnect before the next delay |
| Reconnect.DisconnectsMatch | src/envs_xmpp_core/runtime/reconnect.py:67-112 | At every moment disconnects equal timed-out attempts, but for one whose turn is next |
| Reconnect.DelayClosedForm | src/envs_xmpp_core/runtime/reconnect.py:48-50 | With d the initial delay and M the maximum, each cut off below at 0 and d: the n-th delay is min(M, d*2^n) for d of at least one half, and otherwise min(M, 2^(n-1)) for n of at least one |
| Reconnect.DelayStep | src/envs_xmpp_core/runtime/reconnect.py:82-112 | The closed form satisfies the recurrence the loop computes |
| Reconnect.DelaysGrow | src/envs_xmpp_core/runtime/reconnect.py:82-112 | Delays never shrink and never pass the maximum |
| Versions.TrimReleaseZeros | src/envs_xmpp_core/release/versions.py:17-21 | What is dropped is zeros, what remains ends in a non-zero component unless it is one component long |
| Versions.PaddedIff | src/envs_xmpp_core/release/versions.py:17-21 | Comparing trimmed tuples is comparing zero-padded sequences of any lengths |
| Versions.KeyedOrder | src/envs_xmpp_core/release/versions.py:24-46 | Keyed versions are ordered by padded release, then label rank, then label number |
| Versions.BelowIff | src/envs_xmpp_core/release/versions.py:39-46 | Keyed versions go by padded release, then any label before none, then label rank and number; when one has no key, by all their numbers, padded, none of them before any |
| Versions.NumbersAre | src/envs_xmpp_core/release/versions.py:13-14 | The numbers of a keyed version are those of its release, its label if written, and its suffix, in this order |
| Versions.TrailingZeros | src/envs_xmpp_core/release/versions.py:24-46 | Trailing zeros of a release never matter |
| Versions.Antisymmetric | src/envs_xmpp_core/release/versions.py:39-46 | Every version equals itself, and swapping the arguments flips the sign |
| Versions.UniformTransitive | src/envs_xmpp_core/release/versions.py:39-46 | Among versions all with or all without a key the comparison is a total preorder |
| Versions.EqualIff | src/envs_xmpp_core/release/versions.py:39-46 | Two texts compare equal exactly when they read the same |
| Versions.AdornedBreaksOrder | src/envs_xmpp_core/release/versions.py:39-46 | A version with a label or suffix number is out of order with its own release and the text without a key that has the same numbers |
| Versions.OrderIffPlain | src/envs_xmpp_core/release/versions.py:39-46 | A version keeps the order with all texts without a key and all plain versions exactly when it is plain |
| Release.KnownFacts | src/envs_xmpp_core/release/state.py:44-48 | A known version is usable, and normalization leaves exactly those without a leading v alone |
| Release.KnownIs | src/envs_xmpp_core/release/state.py:44-48 | What is known is the text without white space and one leading v, unless nothing or the word unknown is left |
| Release.DirectionReverses | src/envs_xmpp_core/release/transitions.py:43-57 | Going back reverses the direction; it is unknown exactly when a version is |
| Release.UpgradeIff | src/envs_xmpp_core/release/transitions.py:43-57 | An upgrade leads from a lower version to a higher one, a downgrade from a higher one to a lower one, in the order of BelowIff |
| Release.UpgradesChain | src/envs_xmpp_core/release/transitions.py:43-57 | Two upgrades of keyed versions make an upgrade |
| Release.ChangedIff | src/envs_xmpp_core/release/transitions.py:29-32 | Versions count as changed exactly when both are known and do not read the same: padded release, label rank and label number for keyed ones, trimmed numbers otherwise |
| Release.ChangedDocumentedIff | src/envs_xmpp_core/release/transitions.py:29-32 | The documented meaning, known and different, fails exactly for two different texts that read the same |
| Release.TrailingZeroIsNoChange | src/envs_xmpp_core/release/transitions.py:29-94 | 1.0 and 1.0.0 differ and are no change, while merging them announces one |
| Release.MergeIs | src/envs_xmpp_core/release/transitions.py:60-94 | An announcement that ends at the previous version is extended, any other gives way to the change itself, and returning to its start clears it |
| Release.MergeMovesOn | src/envs_xmpp_core/release/transitions.py:60-94 | Merging into an announcement from a baseline leads from the same baseline to the new version, or to none when back at the baseline |
| Release.AnnouncementsTelescope | src/envs_xmpp_core/release/transitions.py:60-94 | Over any starts and acknowledgements with reloads, the announcement leads from baseline to current version, and there is none when they are equal |
| Release.OtherClearsAreIgnored | src/envs_xmpp_core/release/state.py:160-172 | An acknowledgement matches exactly when it names the outstanding announcement; any other changes nothing |
| Release.CleanStartIsNeeded | src/envs_xmpp_core/release/transitions.py:60-94 | After any clean history the next start keeps the law exactly when it is clean or names the baseline |
| Release.RoundTripIff | src/envs_xmpp_core/release/state.py:145-157 | A state survives storing and loading exactly when no stored version has a leading v |
| Release.MappingRoundTripIff | src/envs_xmpp_core/release/state.py:79-102 | Serialization keeps a state under the same condition |
| Release.DoubledPrefixIsLost | src/envs_xmpp_core/release/versions.py:8-10 | The version vv1 is stored as v1 and loaded as 1 |
| Release.ReleaseStateSqlRepository.Load | src/envs_xmpp_core/release/state.py:145-149 | The stored row, normalized again, or the empty state |
| Release.ReleaseStateSqlRepository.Save | src/envs_xmpp_core/release/state.py:151-158 | Fails exactly without a database; a settled state loads back as saved |
| Release.ReleaseStateSqlRepository.ClearPendingIfMatches | src/envs_xmpp_core/release/state.py:160-172 | True exactly when the row matched, and then only the announcement is cleared; otherwise nothing changes |

## Left out

- Deliver: message bodies are delivered as stored; the redaction of recorded errors is not modelled, so `last_error` is a given text.
- ResolveHelpTopic: requires that the topic has an answer, because otherwise the loop does not end (`AnsweredIffFinite`); `NonGrowingIsFinite` and `GrowingHasNoAnswer` read this off the alias table for two families, and tables in neither are decided by their rewritings alone.
- DependencyClosure: leastness is promised for monotone markers; for the others the result is closed, and `NonMonotoneDependsOnOrder` shows why no more can be said.
- RunReconnectLoop: an environment is known for finitely many passes; the result `Running` says that more would follow.
- SleepWithHeartbeat: real arithmetic; the rounding of floats is not modelled, here and in every other delay.
- RunRestore: a caller's own `replace_file` is covered only as far as it meets the contract of `ReplaceFile`; the waits for worker threads may be cancelled, and a failing thread's own error then wins (`AwaitThread`).
- RunWorker: the heartbeat callback and the circuit-open notification are taken to return.
- Adopt: clashing ids, and ids unrelated to the repository, are preconditions; so is a repository whose availability does not change during the run.
- Isolation: a transaction runs inside one asyncio task; a current task of None and a failing SAVEPOINT statement are not modelled.
- CompareVersions: starts from what the pattern and the digit search read in a text; the matching of the regular expression itself is not modelled.
- StoredNameIff: the path rules are those of POSIX; a backslash is an ordinary character there.
- Lower-casing is ASCII only; Unicode case folding is not modelled.
- SQL text, SQLite itself, ZIP and JSON encoding, hashing, file modes and fsync: tables, member lists, abstract encoders with a stated inverse, and failures at every step stand for them.
- AUTOINCREMENT ids skipped by a failed upsert: an upsert that updates consumes no id here.
- Restore hooks are functions from files to files and an outcome; a hook that reads the clock or the network is covered only through that outcome.
- Repeated cancellation while a shielded wait is pending, and the single-task `cancel_task`.
- `wait_for_event_with_heartbeat`, `stale_tasks`, `snapshot`, the counts and other displays: read-only views.
- Time stamps of task records other than the order of creation.
- Help topics given as iterables that are not already lower-cased tokens.
- Slixmpp adapters, OMEMO, stanza parsing, redaction, presentation, configuration editing and the other operations tools.
