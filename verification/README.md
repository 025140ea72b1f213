# Verified model of the media bot's cleanup, polling, archive and tooling code

This project models six parts of a Telegram media bot and proves what they promise: the TTL sweep
over a versioned S3 bucket together with the Redis and file-system passes that run with it; the
long-poller protocol that keeps one `getUpdates` in flight; the archive writer, the volume splitter
and the concat manifest; the offline Redis sweep with its dry run; the security scanner's glob
compiler; and the lock-file checker.

Code that updates state in place is imperative here too (`Bucket`, `CleanupManager`, `Sweeper`,
`Disk`, `UsedNames`, `FileSystem`, and the loops of the parsers). Each such method is proved equal to
a specification function of the old state, and the lemmas then say what that function means, in terms
of the state and the settings alone. The
source's one cleanup manager is split by the state it works on: the bucket, Redis and the file tree. The
poller is a timed state machine: its theorems are about every state that any run of any number of
processes reaches.

## Layout

| files | what they hold |
|---|---|
| `VersionedBucket`, `BucketSweep`, `BucketLaws`, `BucketNumbers` | the bucket, the sweep, its meaning, and a whole run in numbers |
| `RedisKeyspace`, `StaleKeys` | the keyspace and the three periodic Redis passes |
| `StaleSweep`, `StaleSweepRun`, `StaleSweepLaws`, `StaleSweepFates` | the offline sweep: verdicts, the run, its laws, and the fate of each entry and key |
| `PollerProtocol`, `PollerExclusion`, `PollerUpdates`, `PollerWatchdog`, `PollerSteps` | the poller protocol, its invariants, and what single steps do |
| `Text`, `ArchiveNames`, `ArchiveVolumes`, `ArchiveWriter`, `ConcatManifest` | archives and manifests |
| `FileTree` | the local age pass and the removal of empty directories |
| `RegexReader`, `GlobCompiler`, `GlobUsers` | how Python reads a regular expression, the glob compiler and what uses it |
| `GlobCounting`, `GlobOpenEnd`, `GlobLate`, `GlobExactness` | for which patterns the compiler is right |
| `LockSync`, `LockSyncText` | the lock-file checker |
| `Options`, `Collections` | what the modules share |

## Where the code does less than its documentation says

The code is modelled as it is. For each promise below that it does not keep, the model states the
exact condition under which it is kept, and inputs or runs for which it is not.

- **A deleted object can come back.** The purge removes a delete marker past its window and may leave
  the object under it: a `"null"` version, which it always spares (`tasks/cleanup_tasks.py:438`), or one
  whose deletion the server refuses, which is logged and otherwise ignored
  (`utils/storage.py:2245-2275`). `BucketLaws.SweepRefinesTtlFilterIff` is the exact condition under which
  the sweep is the flat TTL filter it is documented to be, over everything a server may refuse by name or
  by version; `BucketLaws.ResurrectionExamples` shows one input of each kind.
- **The lock's TTL is not longer than an iteration.** A 30 s long poll and the 5 s sleep after a
  timeout already use up the 35 s TTL (`main.py:156`, `main.py:325`, `main.py:356`).
  `PollerExclusion.ExclusionIff` says when polling is exclusive, and
  `PollerExclusion.ShippedTimingIsNotExclusive` that the constants do not meet it. The lock object
  also grants itself when Redis does not answer (`utils/redis_lock.py:77-102`).
- **`--batch` removes the live locks of other batches.** The set of active jobs is narrowed to the
  batch, the lock, slot and dedup passes are not (`scripts/cleanup_stale_redis.py:104`, `:185-205`):
  `StaleSweepLaws.BatchLimitRemovesForeignLocks` says which live locks survive, and
  `StaleSweepLaws.ForeignLockExample` is a keyspace that loses one.
- **Globs with `**` at the end of a component.** The index loop takes `**/` for whole components also
  where it ends a longer one, and a last `**` for a run of characters in one component
  (`security/scan_mediabot.py:918-929`). `GlobExactness.CompiledGlobIff` says for which patterns the
  expression is right on every path a directory walk can produce, and `GlobExactness.Disagreement` finds
  such a path for every other. The default glob `**` of a suppression covers top-level files only:
  `GlobUsers.BareSuppressionIsShallow`.
- **The last stamp alone does not bound deafness.** `PollerWatchdog.StampBoundIff` says when a process
  without a poller is restarted by stamp + STALE + INTERVAL, and `PollerWatchdog.StampAloneNeverBounds`
  gives, for every setting, a run in which it is not: its poller is stamped, fails past the limit, and dies
  after a check that still found it up. `PollerWatchdog.DeafnessIsBounded` is the bound that always holds.
- **A finished split removes whatever lay at the path of volume n+1.** The loop opens one volume more
  than it fills (`tasks/conversion_tasks.py:1852-1867`); `ArchiveVolumes.DeliveredSplitRejoins` says what is
  left there, and that the split leaves foreign files alone exactly when nothing lay there before;
  `ArchiveVolumes.ForeignThirdIsLost` is a file that is lost.

## Model

| member | source | states |
|---|---|---|
| VersionedBucket.Bucket.ListKeys | utils/storage.py:2108-2152 | the object listing is exactly the visible keys under the prefix, each once, dated by the current version |
| VersionedBucket.Bucket.DeleteKeys | utils/storage.py:2154-2198 | batch by batch a plain delete hides, replaces or forgets each key the server accepts, by versioning mode; the count is what it accepted |
| VersionedBucket.AfterDeleteTwice | utils/storage.py:2154-2198 | deleting in batches is deleting at once |
| VersionedBucket.AfterPurgeTwice | utils/storage.py:2229-2275 | purging in batches is purging at once |
| VersionedBucket.Bucket.ListVersions | utils/storage.py:2200-2227 | the version listing holds every version and marker once and flags exactly the newest of each key |
| VersionedBucket.Bucket.DeleteVersions | utils/storage.py:2229-2275 | batch by batch exactly the addressed versions that the server does not refuse go, and are counted; nothing is hidden or re-created |
| VersionedBucket.AfterDeleteWellFormed | utils/storage.py:2154-2198 | markers written with fresh ids keep every history free of duplicate ids |
| BucketSweep.CleanupManager.PurgeVersionResidue | tasks/cleanup_tasks.py:381-452 | the purge removes exactly the pairs the residue rule dooms and the server does not refuse, and counts them; without version support it changes nothing |
| BucketSweep.CleanupManager.PickVersions | tasks/cleanup_tasks.py:420-439 | the loop over the listed rows collects the doomed pairs in order |
| BucketSweep.CleanupManager.CleanupPrefix | tasks/cleanup_tasks.py:319-379 | one sweep on any backend, whatever keys and versions the server refuses and markers it writes: what is left, and as the result the accepted keys plus the versions that went |
| BucketSweep.CleanupManager.DeleteExpired | tasks/cleanup_tasks.py:344-355 | the first half hides exactly the expired keys in scope that the server accepts |
| BucketSweep.CleanupManager.CleanupS3Inputs | tasks/cleanup_tasks.py:282-289 | the inputs sweep, the shared library exempt: store and count on any backend |
| BucketSweep.CleanupManager.CleanupS3Library | tasks/cleanup_tasks.py:291-298 | the library sweep under its own TTL: store and count on any backend |
| BucketSweep.CleanupManager.CleanupRemote | tasks/cleanup_tasks.py:142-146 | the five remote sweeps of one cleanup, composed in order on any backend, and the sum of their counts |
| BucketSweep.PurgeCompletesSweep | tasks/cleanup_tasks.py:365-376 | deleting by name and purging by version, with any refusals and in any versioning mode, leave of every key what `Swept` says |
| BucketSweep.PickedKeys | tasks/cleanup_tasks.py:346-351 | what the comprehension picks from a listing is exactly the expired keys in scope, none twice |
| BucketSweep.DoomedIsListed | tasks/cleanup_tasks.py:423-439 | the doomed list built row by row from the listing is exactly the doomed versions of the store, none twice |
| BucketSweep.PurgedIds | tasks/cleanup_tasks.py:444-452 | what disappears from the bucket is exactly the pairs that were sent, so the count is conserved |
| BucketLaws.SweepVisibility | tasks/cleanup_tasks.py:346-376 | a key is visible afterwards iff it was visible and unexpired, or it resurfaces; a key that was to stay shows the same version |
| BucketLaws.SweepRefinesTtlFilterIff | tasks/cleanup_tasks.py:381-439 | the sweep is a flat TTL filter on the visible keys iff of no expired or retired key the newest version that clings, a refused one or a null object, is an object |
| BucketLaws.ResurfacesUnrefused | tasks/cleanup_tasks.py:434-439 | where the server refuses no version, a key resurfaces iff a stale marker covers a null object |
| BucketLaws.NoNullVersionsNoResurrection | tasks/cleanup_tasks.py:392-406 | without null objects, and where the server refuses above every refused object something newer too, no deleted key is shown again |
| BucketLaws.ResurrectionExamples | tasks/cleanup_tasks.py:434-439 | two concrete buckets in which a deleted key returns: a null object, and a refused version under a purged marker |
| BucketLaws.SurvivorsAreJustified | tasks/cleanup_tasks.py:399-406 | every version left in scope was refused, or is within its window, or the live current object, or a null object of an unexpired key |
| BucketLaws.ExpiredKeepsNothing | tasks/cleanup_tasks.py:429-433 | an expired key keeps a version or tombstone iff the server refused one of its versions |
| BucketLaws.SecondSweepRemovesNothingIff | tasks/cleanup_tasks.py:365-367 | on a server that refuses no version, a second sweep at the same time changes nothing iff no uncovered null object has outlived the key TTL |
| BucketLaws.EachKeySeesItsOwnSweep | tasks/cleanup_tasks.py:282-298 | over any list of sweeps with disjoint scopes, and any answers, each key is treated by its own sweep only |
| BucketLaws.SweepsCommute | tasks/cleanup_tasks.py:142-146 | two sweeps with disjoint scopes commute |
| BucketLaws.CleanupScopesAreDisjoint | tasks/cleanup_tasks.py:282-317 | the five remote scopes never overlap |
| BucketLaws.RemoteRunByOwner | tasks/cleanup_tasks.py:142-146 | after a whole run each key is what the sweep of its own prefix leaves, the inputs' sweep never reaches the library, and other keys are untouched |
| BucketNumbers.DeletedByNameInNumbers | tasks/cleanup_tasks.py:282-317 | a key is deleted by name iff its current object is older than its own prefix's setting (library, inputs outside it, uploads, forwards, outputs) at the time of that listing and the server accepts it |
| BucketNumbers.RunInNumbers | tasks/cleanup_tasks.py:142-146 | after a whole run on a versioned backend a version of a key past its prefix's TTL is left iff it was refused by id and the delete by name spared it; of any other swept key iff it was refused, is inside the window, or is a live current or null object; each prefix under its own TTL and the manager's window |
| BucketNumbers.RemainingInNumbers | tasks/cleanup_tasks.py:344-439 | what one sweep leaves of each version of a key, told from times, TTL, window, marker and refusals |
| RedisKeyspace.Scan | tasks/cleanup_tasks.py:649-651 | every key under a prefix once, in any order |
| StaleKeys.CleanupManager.JudgeJob | tasks/cleanup_tasks.py:656-706 | the verdict on one job hash: id length, emptiness, terminal status, then finished or started stamp against the age limit |
| StaleKeys.CleanupManager.JudgeDedup | tasks/cleanup_tasks.py:565-603 | the verdict on one dedup key |
| StaleKeys.CleanupManager.JudgeLock | tasks/cleanup_tasks.py:485-514 | the verdict on one input lock |
| StaleKeys.CleanupManager.OwnerIsOver | tasks/cleanup_tasks.py:496-514 | a named job is over iff its hash is missing, empty, terminal or without a status; a key of another type keeps its owner |
| StaleKeys.CleanupManager.CleanupStaleRedisJobs | tasks/cleanup_tasks.py:627-731 | the scan loop removes exactly the stale job hashes and counts them |
| StaleKeys.CleanupManager.CleanupStaleDedupKeys | tasks/cleanup_tasks.py:538-625 | the scan loop removes exactly the stale dedup keys, judged against the keyspace it started from |
| StaleKeys.CleanupManager.CleanupStaleLocks | tasks/cleanup_tasks.py:458-536 | the scan loop removes exactly the stale locks, judged against the keyspace it started from |
| StaleKeys.CleanupManager.CleanupRedis | tasks/cleanup_tasks.py:134-136 | the three passes in order; the three counts add up to the keys that went |
| StaleKeys.RunJudgesEachKeyOnce | tasks/cleanup_tasks.py:134-136 | a key survives the run iff its one verdict against the keyspace before the run spares it, and then unchanged |
| StaleKeys.JobFate | tasks/cleanup_tasks.py:656-706 | a job hash goes iff its id has eight characters or more and it is empty, or done, error or cancelled and long after its end (its start where no end was noted), without a readable time included |
| StaleKeys.AnyOrderGivesTheSameKeyspace | tasks/cleanup_tasks.py:134-136 | all six orders of the passes end in the same keyspace |
| StaleKeys.SurvivingKeysNameLiveJobs | tasks/cleanup_tasks.py:484-603 | a lock or dedup key survives iff it names a live job, and that job is still there |
| StaleKeys.LiveJobsSurvive | tasks/cleanup_tasks.py:655-700 | no live job loses or changes its hash |
| StaleKeys.SecondRunDeletesNothing | tasks/cleanup_tasks.py:134-136 | the run is idempotent at a fixed time |
| StaleSweep.RemoveEachIsFilter | scripts/cleanup_stale_redis.py:167-173 | part way through a snapshot the queue is the filtered prefix followed by the untouched rest, whatever duplicates it holds |
| StaleSweep.RemoveAllIsFilter | scripts/cleanup_stale_redis.py:167-173 | one LREM of count 1 per stale entry leaves the order-preserving filter |
| StaleSweepRun.Sweeper.ActiveJobIds | scripts/cleanup_stale_redis.py:96-108 | the active ids in scope, and every job hash |
| StaleSweepRun.StaleByHashes | scripts/cleanup_stale_redis.py:119-127 | judging by the hashes read at the start equals judging by the keyspace then |
| StaleSweepRun.Sweeper.DropMember | scripts/cleanup_stale_redis.py:130-137 | reports a member iff the set holds it in this mode, and removes it only when applying |
| StaleSweepRun.Sweeper.ReportOrDelete | scripts/cleanup_stale_redis.py:140-144 | one line and one count in both modes, a deletion only when applying |
| StaleSweepRun.Sweeper.SweepQueue | scripts/cleanup_stale_redis.py:165-173 | the queue pass prints the job of each stale entry in order; an apply leaves the live entries |
| StaleSweepRun.Sweeper.SweepDelayed | scripts/cleanup_stale_redis.py:175-181 | the delayed pass likewise |
| StaleSweepRun.Sweeper.SweepOwned | scripts/cleanup_stale_redis.py:183-205 | the lock, slot and dedup passes report exactly the keys whose owner is not active |
| StaleSweepRun.Sweeper.CollectBatchIds | scripts/cleanup_stale_redis.py:209-219 | the ids to look at are those of the original keyspace, in both modes |
| StaleSweepRun.Sweeper.SweepBatchState | scripts/cleanup_stale_redis.py:227-242 | the lock and state keys of one batch, each once |
| StaleSweepRun.Sweeper.SweepBatchIndexes | scripts/cleanup_stale_redis.py:243-258 | the aggregate view and every resume record lose the batch, also where the apply has dropped earlier records |
| StaleSweepRun.Sweeper.SweepBatch | scripts/cleanup_stale_redis.py:221-258 | a batch is taken down whole iff it is in scope and has no active member |
| StaleSweepRun.Sweeper.HasLiveMember | scripts/cleanup_stale_redis.py:224-226 | whether a batch has an active member, as the original keyspace has it |
| StaleSweepRun.Sweeper.SweepBatches | scripts/cleanup_stale_redis.py:207-258 | over all ids the lines are those of the stale batches, whatever the order |
| StaleSweepRun.Sweeper.Run | scripts/cleanup_stale_redis.py:147-262 | both modes print the same lines and counts, a preview changes nothing, an apply leaves the keyspace without exactly what it printed |
| StaleSweepLaws.SameLinesSameCounters | scripts/cleanup_stale_redis.py:260-262 | equal lines in any order give equal counters |
| StaleSweepLaws.PreviewThenApply | scripts/cleanup_stale_redis.py:140-258 | preview and apply agree on lines and counters, and a second apply prints nothing |
| StaleSweepLaws.SecondApplyReportsNothing | scripts/cleanup_stale_redis.py:165-258 | after an apply no pass has anything left to report |
| StaleSweepLaws.AppliedIsSane | scripts/cleanup_stale_redis.py:165-258 | an apply leaves a keyspace that meets the hypotheses again |
| StaleSweepLaws.VerdictsStand | scripts/cleanup_stale_redis.py:96-127 | an apply changes no job hash, so activity and staleness of every entry stay what they were |
| StaleSweepLaws.StaleBatchGone | scripts/cleanup_stale_redis.py:221-258 | nothing of a batch that was taken down is left to report |
| StaleSweepLaws.AppliedQueues | scripts/cleanup_stale_redis.py:165-181 | after a whole apply both queues are the filter of what they held |
| StaleSweepFates.EntryFate | scripts/cleanup_stale_redis.py:119-127 | an entry is still queued or delayed after an apply iff it was, and it names no job, or one whose hash is there, not empty and not over, or one of another batch |
| StaleSweepFates.QueuesKeepTheirOrder | scripts/cleanup_stale_redis.py:165-181 | the entries that stay are those at an increasing list of places, all that have a reason to stay |
| StaleSweepFates.QueueCounters | scripts/cleanup_stale_redis.py:172 | the queue and delayed counters are the numbers of entries without a reason to stay |
| StaleSweepFates.KeyCounters | scripts/cleanup_stale_redis.py:183-205 | the lock, slot and dedup counters are the numbers of such keys whose owner is not at work |
| StaleSweepFates.BatchCounters | scripts/cleanup_stale_redis.py:231-242 | batch locks and tombstones are counted apart, one for each batch taken down that has one |
| StaleSweepFates.SweepOnce | scripts/cleanup_stale_redis.py:147-262 | one run in either mode: what both queues hold afterwards and seven of the eight counters, told from the keyspace before |
| StaleSweepFates.OwnedFate | scripts/cleanup_stale_redis.py:183-205 | a lock, slot or dedup key stays iff its owner's hash is in scope and has one of the six working statuses, or it is a pending dedup key |
| StaleSweepFates.BatchKeyFate | scripts/cleanup_stale_redis.py:207-242 | a batch's lock and eight state keys stay, unchanged, iff it is out of scope or one of its members is at work |
| StaleSweepFates.BatchIndexFate | scripts/cleanup_stale_redis.py:243-258 | its place in the aggregate view and in each resume record likewise, but only a batch that some key or the aggregate view names is looked at |
| StaleSweepFates.OtherKeysStay | scripts/cleanup_stale_redis.py:147-262 | every other key is left alone |
| StaleSweepLaws.ActiveJobKeepsEverything | scripts/cleanup_stale_redis.py:165-205 | without a batch limit an active job keeps its hash, its queue entries as often as queued, and its locks, slots and dedup keys |
| StaleSweepLaws.OwnedKeyFate | scripts/cleanup_stale_redis.py:183-205 | a lock, slot or dedup key goes iff its owner is not active, pending dedup keys excepted |
| StaleSweepLaws.ActiveBatchKeepsState | scripts/cleanup_stale_redis.py:207-258 | a batch with an active member keeps its keys unchanged and its place in every index |
| StaleSweepLaws.LiveIndexKept | scripts/cleanup_stale_redis.py:243-258 | a batch that is not taken down stays in every index it was in |
| StaleSweepLaws.BatchLimitRemovesForeignLocks | scripts/cleanup_stale_redis.py:104-105 | with a batch limit a live lock survives iff its job belongs to that batch |
| StaleSweepLaws.ForeignLockExample | scripts/cleanup_stale_redis.py:185-189 | a keyspace whose live lock a run limited to another batch removes |
| StaleSweep.HexIdsAreSane | utils/batch_pipeline.py:135-137 | batch ids as they are minted meet the hypothesis on ids of the other results |
| StaleSweep.HexIdIsMinted | utils/batch_pipeline.py:135-137 | an id of 32 hexadecimal digits holds no colon and is neither `active` nor `resume` |
| PollerProtocol.Pending | main.py:325-327 | the server still offers exactly the arrived updates at or above the confirmed mark |
| PollerProtocol.ReachableExtends | main.py:274-390 | every enabled step of a reachable state leads to a reachable state |
| PollerSteps.ReleaseFreesTheLock | utils/redis_lock.py:115-123 | a conflict and the end of a poller delete the key iff the poller holds the lock and the key is its own, and lower its flag |
| PollerSteps.AnotherMayAcquire | main.py:373-390 | after such a release any other poller about to poll can take the lock at once |
| PollerSteps.KeyChanges | utils/redis_lock.py:77-154 | a step changes the key only by taking a free one, extending one's own or deleting one's own |
| PollerSteps.EveryExitRenews | main.py:376-385 | every exit of an iteration extends a lock that is still the poller's own |
| PollerSteps.PauseAfter | main.py:305-376 | how long a poller pauses after a timeout, a failure and a deferral |
| PollerSteps.ConflictPause | main.py:364-374 | the k-th conflict in a row pauses for the k-th backoff value, and an answer starts the count again |
| PollerSteps.OnlyRequestsConfirm | main.py:322-327 | only a request with an offset confirms, and exactly what lies below the offset |
| PollerSteps.OnlyAnswersSchedule | main.py:337-348 | only an answer schedules: its updates in order, the offset one past the last of them |
| PollerSteps.OnlyPollsStamp | main.py:305-336 | only an answer stamps the poll and only a lock held elsewhere the deferral, for its own process and with the time |
| PollerSteps.CheckRestartsTheDeaf | main.py:178-226 | a check starts a poller iff the process expects one, its newest stamp is past the limit and its flag is down; otherwise it only notes the time |
| PollerSteps.StartIsIdempotent | main.py:393-405 | starting under a raised flag changes nothing |
| PollerExclusion.AcquiredMeansOwned | utils/redis_lock.py:130-154 | while iterations fit, the local flag inside the loop implies owning the unexpired key |
| PollerExclusion.LockInvStep | main.py:240-266 | every step of every process keeps the lock invariant |
| PollerExclusion.PollingIsExclusive | main.py:305-385 | in every reachable state at most one request is in flight, a raised flag owns the key, and a long conflict sleep holds no lock |
| PollerExclusion.TwoInFlight | main.py:354-385 | when an iteration can take the TTL or longer, a run with two requests in flight |
| PollerExclusion.TwoInFlightWithoutRedis | utils/redis_lock.py:77-102 | when Redis may fail to answer, a run with two requests in flight |
| PollerExclusion.ExclusionIff | main.py:154-156 | exclusion over all runs iff Redis always answers and the longest iteration is shorter than the TTL |
| PollerExclusion.ShippedTimingIsNotExclusive | main.py:325-356 | with a 30 s poll the condition fails |
| PollerUpdates.ReplyHasNoGap | main.py:324-327 | whatever prefix of its pending updates the server sends leaves no unscheduled update below its end |
| PollerUpdates.UpdatesInvStep | main.py:305-385 | every step keeps the bookkeeping invariant of server and pollers |
| PollerUpdates.NoUpdateIsLost | main.py:322-351 | an update the server has forgotten was scheduled; every other is still offered |
| PollerUpdates.NothingTwiceInOneLife | main.py:337-348 | within one poller's life what is scheduled ascends strictly and lies below its offset |
| PollerUpdates.OffsetsOnlyGrow | main.py:339-341 | no step moves an offset back or shortens a log |
| PollerUpdates.RestartRedeliversUnconfirmed | main.py:299 | a first request confirms nothing, and a full reply to it is every unconfirmed update |
| PollerUpdates.BackoffIsCappedDoubling | main.py:365 | the k-th pause in a row is min(5 * 2^(k-1), 60) s, longer than the TTL iff k >= 4 |
| PollerWatchdog.WhoIsLive | main.py:393-405 | a poller live after a step was live before it or was created under a lowered flag |
| PollerWatchdog.FlagInvStep | main.py:386-405 | every step keeps flag and live poller in agreement |
| PollerWatchdog.FlagMeansOneLivePoller | main.py:386-420 | the flag is up iff one poller of the process has not reached its outer finally, and never two have not |
| PollerWatchdog.DeafnessIsBounded | main.py:423-448 | a watched process without a poller is restarted within one interval, and the lag of a check, of going stale or of the last check that still found the poller up, whichever is later |
| PollerWatchdog.StampBoundIff | main.py:178-226 | it is restarted by stamp + STALE + INTERVAL, up to the lag of a check, iff its last check came by stamp + STALE; a later one found the poller still up |
| PollerWatchdog.StampAloneNeverBounds | main.py:423-448 | for every positive interval and every limit, a run whose poller is stamped, then fails past the limit and dies, and whose process is down past stamp + STALE + INTERVAL and the lag |
| PollerWatchdog.FailingAtCheck | main.py:376-448 | a poller that keeps failing after its stamp is still up at its n-th check, so no check restarts it |
| ArchiveNames.UsedNames.UniqueArcname | tasks/conversion_tasks.py:1692-1707 | the first candidate whose lowered form is free, after at most as many collisions as there are names |
| ArchiveNames.CandidatesDiffer | tasks/conversion_tasks.py:1700-1705 | no two candidates of one name agree once lowered |
| Text.PaddedValue | tasks/conversion_tasks.py:1831 | padding to three digits loses nothing, whatever the width |
| ArchiveNames.VolumePathsDiffer | tasks/conversion_tasks.py:1822-1831 | volume paths are distinct for all indexes, 1000 and above included |
| ArchiveNames.VolumePathsMissTheArchive | tasks/conversion_tasks.py:1822-1831 | a volume is never the archive unless its name ends in a digit |
| ArchiveNames.VolumesKeepTheName | tasks/conversion_tasks.py:1822-1831 | volume i of `dir/name` is `dir/name.` and its number, three digits wide below 1000 |
| ArchiveNames.CounterBeforeTheExtension | tasks/conversion_tasks.py:1700-1705 | a counted name has the counter between the stem and the last extension |
| ArchiveVolumes.ChunksRejoin | tasks/conversion_tasks.py:1851-1869 | the pieces in order are the archive |
| ArchiveVolumes.ChunkSizes | tasks/conversion_tasks.py:1851-1869 | ceil(total / cap) pieces, all but the last full, the last with 1 to cap bytes |
| ArchiveVolumes.WriteVolume | tasks/conversion_tasks.py:1854-1863 | one volume holds the next cap bytes of the archive, or what is left, and nothing else changes |
| ArchiveVolumes.CopyChunk | tasks/conversion_tasks.py:1857-1863 | one read and one write move the next chunk, or fail leaving all but the target as it was |
| ArchiveVolumes.NextVolume | tasks/conversion_tasks.py:1852-1869 | one turn of the outer loop: the next piece under the next name, or an empty probe once the archive is read |
| ArchiveVolumes.WriteVolumes | tasks/conversion_tasks.py:1850-1869 | the outer loop writes the pieces under their names and removes the probe that stayed empty; on a fault it tells which volumes are finished |
| ArchiveVolumes.RollBack | tasks/conversion_tasks.py:1870-1876 | after a fault every finished volume is gone unless it cannot be removed, at most the one in progress remains, all else is as it was |
| ArchiveVolumes.SplitArchive | tasks/conversion_tasks.py:1834-1882 | no-op framing, the delivered disk and paths, and a raised fault with the archive intact and the volumes rolled back |
| ArchiveVolumes.DeliveredSplitRejoins | tasks/conversion_tasks.py:1850-1882 | on disk under distinct names lie volumes that rejoin to the archive; the archive is gone iff asked and removable; the probe's path is emptied, so foreign files are untouched iff nothing lay there |
| ArchiveVolumes.ForeignThirdIsLost | tasks/conversion_tasks.py:1864-1867 | a file at the path of volume n+1 that a split into n volumes removes |
| ArchiveVolumes.ZipIsNotItsOwnVolume | tasks/conversion_tasks.py:1822-1831 | a `.zip` path meets the splitter's hypothesis |
| ArchiveWriter.AddSource | tasks/conversion_tasks.py:1769-1797 | one source: archived iff it could be resolved and written, under its own name or a counted form nobody took; caller's files stay, the fetched copy goes |
| ArchiveWriter.Locate | tasks/conversion_tasks.py:1771-1782 | the caller's file if it is there, else the fetched copy, else nothing; the disk differs by that copy at most |
| ArchiveWriter.ArchiveNext | tasks/conversion_tasks.py:1768-1797 | one turn adds the entry to the members or to the losses, under a name nobody took |
| ArchiveWriter.CreateArchive | tasks/conversion_tasks.py:1750-1809 | the archive against the sources: member i is source `at[origin[i]]`, the lost ones likewise, each list in the sources' order and together every source that is not empty; names are distinct ignoring case, the disk is as before, success iff something was written |
| ArchiveWriter.EntriesSelect | tasks/conversion_tasks.py:1753 | the entries are the non-empty sources at a strictly increasing list of positions that holds each of them |
| ArchiveWriter.AskedNames | tasks/conversion_tasks.py:1770-1775 | a record's name wins, then what follows the last slash of its path, of its key where it has no path, then its position |
| ArchiveWriter.EveryEntryAccountedOnce | tasks/conversion_tasks.py:1768-1797 | each entry is in exactly one of the two lists, and archived iff it could be |
| ArchiveWriter.OwnFilesAreArchived | tasks/conversion_tasks.py:1776-1788 | a source whose own file is there is archived with that file's bytes unless writing it raised |
| ConcatManifest.UnquoteEscaped | tasks/conversion_tasks.py:529-531 | unquoting undoes the quoting for any number of apostrophes |
| ConcatManifest.ManifestReadsBack | tasks/conversion_tasks.py:529-533 | a manifest of newline-free paths reads back as the slash-normalised paths in order |
| ConcatManifest.ManifestRoundTripIff | tasks/conversion_tasks.py:529-533 | the round trip holds iff no path holds a newline |
| FileTree.FileSystem.CleanupDirectory | tasks/cleanup_tasks.py:171-208 | the recursive pass removes exactly the expired files below the directory; removed plus remaining is the original count |
| FileTree.FileSystem.CleanupFile | tasks/cleanup_tasks.py:183-197 | one file goes iff it is past its age, no placeholder and removable, and is then counted |
| FileTree.FileSystem.CleanupEmptyDirectories | tasks/cleanup_tasks.py:210-237 | over all roots that exist the passes compose; removed plus remaining is the original count |
| FileTree.FileSystem.RemoveEmptyBelow | tasks/cleanup_tasks.py:223-233 | the bottom-up walk leaves exactly the directories that hold a file or an irremovable directory somewhere below, and the irremovable ones |
| FileTree.FileSystem.RemoveEmptyAmong | tasks/cleanup_tasks.py:225-231 | the inner loop completes one directory's share of the bottom-up pass and counts what it removes |
| FileTree.AgePassKeepsTheRest | tasks/cleanup_tasks.py:180-197 | a file survives iff it is outside, a placeholder, young enough or not removable, and what is left is still a tree |
| FileTree.EmptyIff | tasks/cleanup_tasks.py:224-229 | when the walk visits a directory it is empty iff no file and no irremovable directory lies below it |
| FileTree.NoEmptyDirectoryLeft | tasks/cleanup_tasks.py:210-237 | no removable empty directory strictly below the root is left, and every file still lies in directories that exist |
| FileTree.PrunedEachAt | tasks/cleanup_tasks.py:212-224 | after all roots a directory is left iff it lies below none of them or must stay, overlapping roots and their order included |
| GlobCompiler.CompileGlob | security/scan_mediabot.py:914-931 | the index loop writes an expression that Python's `re` accepts and that matches exactly the paths the pattern's tokens do |
| GlobCompiler.ParsesBack | security/scan_mediabot.py:914-931 | an independent reader of regular expressions reads the text as the items the tokens stand for, so every literal of a pattern is read as itself |
| GlobCompiler.MeansTheSame | security/scan_mediabot.py:918-929 | those items, under the semantics of classes, stars and optional groups, accept exactly what the tokens match |
| RegexReader.SyntaxNeedsItsBackslash | security/scan_mediabot.py:929 | the reader takes a syntax character for itself only behind a backslash |
| GlobCompiler.ComponentStep | security/scan_mediabot.py:918-929 | a component that is the last, or does not end in `**`, matches as a wildcard and never across a slash |
| GlobCompiler.AnyDirsSkips | security/scan_mediabot.py:920-923 | the optional group of a double star skips whole components only |
| GlobCompiler.AnyDirsMaySkip | security/scan_mediabot.py:920-923 | and can skip any number of them |
| GlobCompiler.CompiledGlobIsRight | security/scan_mediabot.py:914-931 | for all patterns in which no longer component before a slash ends in `**` and the last is not `**`, and all newline-free paths, the regex matches iff the components do |
| GlobExactness.CompiledGlobIff | security/scan_mediabot.py:914-931 | the exact condition on the components of a one-line pattern under which the regex is right on every path without empty names |
| GlobExactness.Disagreement | security/scan_mediabot.py:918-929 | for every other pattern a path without empty names on which regex and components disagree |
| GlobExactness.LooseDisagrees | security/scan_mediabot.py:920-923 | the family with `**` at the end of a longer component: the shortest match of the regex has too few components |
| GlobExactness.LastDoubleStarDisagrees | security/scan_mediabot.py:924 | the family with `**` last: a path that leaves it empty is matched by the components only |
| GlobOpenEnd.HarmlessIsRight | security/scan_mediabot.py:918-929 | one such component is harmless when `**` is last, what follows matches every name, and the first of that is `*` or the component is nothing but stars |
| GlobLate.LateDisagrees | security/scan_mediabot.py:918-929 | it is not when the first component after it that is no double star is no star and it insists on a character |
| GlobLate.JunkDisagrees | security/scan_mediabot.py:918-929 | nor when some component after it refuses a name |
| GlobUsers.Suppressed | security/scan_mediabot.py:1052-1060 | true iff some suppression of this or every rule covers the path |
| GlobUsers.BareSuppressionIsShallow | security/scan_mediabot.py:1056 | without a glob a suppression covers a path iff it has no slash |
| GlobUsers.CatchAllAccepts | security/scan_mediabot.py:896 | `**/*` accepts every path, so skipping the pattern test for it changes nothing |
| GlobUsers.PrunedFilesAreExcluded | security/scan_mediabot.py:902 | every file below a directory has its name as a component, so pruning loses nothing wanted |
| GlobUsers.Files | security/scan_mediabot.py:894-912 | the walk collects exactly the files outside excluded directories and globs that some pattern accepts |
| LockSync.LogicalLines | scripts/check_lock_sync.py:52-70 | the loop yields the logical lines of the recursive reading |
| LockSync.ParseRequirements | scripts/check_lock_sync.py:73-83 | the requirements are those of the logical lines that, without their marker, pin something, in order; a line that does not parse raises |
| LockSync.ParseLock | scripts/check_lock_sync.py:86-99 | the loop yields the table of the recursive reading |
| LockSync.ProblemsOf | scripts/check_lock_sync.py:117-128 | one requirement: exactly its problems, and none iff the lock covers it |
| LockSync.Check | scripts/check_lock_sync.py:102-130 | no problem iff every requirement is covered; sound and complete problem by problem |
| LockSync.CheckTexts | scripts/check_lock_sync.py:102-130 | on two texts: raises iff some requirement line does not parse, and otherwise no problem iff every one is covered by the parsed lock |
| LockSync.SeparatorsAreOne | scripts/check_lock_sync.py:47-49 | how two parts of a name are separated does not matter |
| LockSync.FoldedTwice | scripts/check_lock_sync.py:47-49 | normalising again changes nothing |
| LockSync.CaseDoesNotMatter | scripts/check_lock_sync.py:47-49 | names that differ in case only are one name |
| LockSync.NormalFormStands | scripts/check_lock_sync.py:47-49 | a name in normal form is its own normal form, so two of them stay apart |
| LockSync.MarkerIsDropped | scripts/check_lock_sync.py:76-78 | what follows the first semicolon of a requirement line does not matter |
| LockSync.EachEntryKeepsItsOwnHash | scripts/check_lock_sync.py:86-99 | in any well laid out lock the last entry of a name keeps its own version and hash flag |
| LockSyncText.JoinedWords | scripts/check_lock_sync.py:52-70 | joining continuations loses no word and glues none |
| LockSyncText.GroupIsOneLine | scripts/check_lock_sync.py:52-70 | a group of continued lines comes out as its one logical line or, if a comment, as nothing |
| LockSyncText.FoldingDoesNotMatter | scripts/check_lock_sync.py:52-70 | two foldings with the same words give logical lines with the same words, kept or skipped alike |
| LockSyncText.HeaderReadsBack | scripts/check_lock_sync.py:91-94 | a printed header parses to its name and version |
| LockSyncText.PinReads | scripts/check_lock_sync.py:91-94 | a header may have white space before its name and around `==`; its version ends at white space, a backslash or a `#` |
| LockSyncText.HashLineIsNoHeader | scripts/check_lock_sync.py:91-98 | a hash line is no header and carries the mark |
| LockSyncText.PrintedLockParsesBack | scripts/check_lock_sync.py:86-99 | a printed lock parses back to each version and to its own hash flag |

## Left out

- BucketSweep.CleanupManager.CleanupPrefix: does not model a re-upload between the two listings; an exception half way leaves the store as if the rest had been refused, but the result is then 0. The versions of a key are listed in the order of their times only where a lemma asks for it.
- RedisKeyspace.Scan: does not model the cursor or keys repeated by SCAN; each key present throughout is returned once.
- StaleKeys.CleanupManager.JudgeJob: how a timestamp parses is a parameter, so `nan` and infinite values are not modelled.
- StaleSweepRun.Sweeper.Run: asks for a keyspace with the types Redis would insist on, no empty collections and an aggregate view whose ids hold no colon and are not reserved, which minted ids meet (StaleSweep.HexIdsAreSane); how a queue payload names its job is a parameter, so the crash on a payload that is a JSON list is not modelled.
- PollerExclusion.PollingIsExclusive: lock owners are distinct and Redis commands take no time; where Redis may fail, only a failing acquisition is a step, which already breaks exclusion.
- PollerWatchdog.FlagMeansOneLivePoller: does not model the shutdown overrides at main.py:2652-2660 and main.py:4125-4138.
- PollerUpdates.NoUpdateIsLost: ids arrive in ascending order (the server's restart of the numbering after an idle week is not modelled) and scheduling does not raise.
- ArchiveNames.UsedNames.UniqueArcname: lower case is character by character, digits and the underscore have none; Python's context-dependent final sigma is not modelled.
- ArchiveVolumes.SplitArchive: paths are compared as strings, and the archive must not be one of its own volume paths, which holds for every `.zip`; otherwise the code truncates the file it is reading, and what it still reads depends on how much Python had buffered.
- ArchiveVolumes.WriteVolume: a failing write may leave any part of its chunk, but buffering below that is not modelled.
- ArchiveWriter.CreateArchive: the zip format, the progress callback and an exception outside the per-source handlers are not modelled; a fetch hands over a path that no other file has.
- ConcatManifest.ManifestRoundTripIff: making a path absolute is left to the caller, and lines end at `\n` only.
- FileTree.FileSystem.CleanupDirectory: symbolic links and a directory listing that raises are not modelled; a removal that fails is.
- FileTree.FileSystem.RemoveEmptyBelow: symbolic links to directories, and a walk that cannot list a directory it descends into, are not modelled.
- GlobCompiler.CompiledGlobIsRight: paths hold no newline.
- RegexReader.SyntaxNeedsItsBackslash: the reader knows literals, escapes, `.`, `[^c]`, a star after one of these, and optional groups; it refuses the rest of Python's `re`, also where `re` would be lenient (a bare `]` or `}`).
- GlobExactness.CompiledGlobIff: patterns with a blank component are left out, since no path of a file has one.
- GlobUsers.Files: the walk is over a tree of names, and the final sorting is left to the caller.
- LockSync.LogicalLines: starts from physical lines; splitting a text into them, and white space outside ASCII, are not modelled.
- LockSync.CheckTexts: how one requirement line parses, or fails to, and version specifiers are parameters.
- Sweeping finished batches, the rate limiter and the web job store (tasks/cleanup_tasks.py:137-140): their code lives in other modules.
- Conversions by ffmpeg, Telegram handlers, HTTP routes, MongoDB models and the scanner's detectors: foreign calls, user interface and pattern tables.
