# Inspectra Active subsystem: a verified model

Inspectra keeps its Active records as JSON files, with SQLite indexes that can be rebuilt from them,
write-ahead markers for multi-step changes, and several small state machines for access. This project
models the parts of that subsystem whose correctness depends on many steps, and proves what each part
is for.

| modules | what they model |
|---|---|
| `BatchRegistration`, `BatchStore` | batch registration under a journal, with failing writes, crashes and repeated recovery |
| `AssetDeletion`, `AuditStage`, `AssetDeletionService` | deletion of an asset and everything derived from it, under a marker, with the sealed audit events |
| `IndexSync`, `RecurrenceIndex` | an index table that follows the JSON store, and the queries over it |
| `RecurrenceWindow`, `WindowTest`, `RecurrenceSchedule`, `RecurrenceHistory`, `RecurrenceStore` | weekly windows over time zones, the search and the test; schedules, dispatcher, retries and optimistic concurrency |
| `ChangeApprovals`, `ChangeApprovalRuns`, `ChangeApprovalMeaning`, `ChangeApprovalRetention`, `ChangeApprovalStore` | four-eyes approvals: the rule over every run, what each operation answers, how long a record is kept |
| `Verifications`, `VerificationStore` | verification challenges |
| `LoginThrottle`, `LoginThrottleRuns` | the in-memory and the SQLite login throttle |
| `DnsName` | the DNS name reader and the query writer |
| `Base64Url`, `JobCursor`, `JobHistory`, `AssetPage`, `Keyset` | signed cursors and keyset paging |
| `Common` | shared notions |

Methods of the source that change state are class methods here, each tied to a specification function
or relation; whole-run properties are lemmas about those. What such a function makes of a record is
stated again in the record's fields, without the function, in the contracts or in lemmas beside them.

## Assumptions

- A single file replace or unlink and a single SQLite transaction are atomic. A crash may come between
  any two of them.
- Every change of a directory gives it a fresh fingerprint, every version of the database file a fresh
  file state.
- SHA-256 and HMAC are injective or arbitrary functions, identifiers drawn at random are fresh.
- The JSON parser reads back what the cursor encoder writes. `JobCursor.TextDetermines` shows that this
  can be met.
- Times are whole microseconds. Clock readings under a lock do not decrease. A schedule's token is the
  time of its last change, and a creation reads the clock when it writes.
- The main results about schedules take every operation to write before the run or the retry that it
  computed. `RecurrenceSchedule.PromptWritesAreTimely` shows that five minutes between reading and
  write suffice, and `RecurrenceSchedule.LateWritesLoseStops` that the condition is exact.
- An operation that judges several records by the clock judges them by one reading.
- Where SQLite leaves the order of equal rows open, the model leaves it open.
- The disk of `BatchRegistration` and the records of `Verifications` and `RecurrenceSchedule` are those of
  one organization.
- An identifier is unique across organizations, as its digest makes it, so tables are keyed by it.

## What turned out not to hold

- `AuditStage.CrashInTheGapIsForGood`: a deletion is not always completed by recovery. The audit stage
  rewrites events one by one and replaces the chain over them last, and it starts with a check of that
  chain. A crash in between leaves a chain that fits no longer, so that no deletion of the organization
  ever ends (`AuditStage.BrokenSealStopsDeletions`). `AuditStage.CutKeepsTheSeal` says exactly which
  cuts are safe.
- `IndexSync.UnguardedStoreHidesARecord`: storing a change in the index does not look at the old
  fingerprint. A change that reached the store but not the index, by another process that never used the
  index or after a failed rebuild, is hidden by the next stored change.
  `IndexSync.SyncVouchesForTheRest` gives the exact condition.
- `RecurrenceSchedule.LateWritesLoseStops`: a stop does not win over the dispatch of a schedule that was
  written at or after its own due time, and that is the only way. `RecurrenceSchedule.LateWritesHappen`
  is a run in which it happens.
- `WindowTest.OfferAtTheFallFails`, `WindowTest.OfferAcrossMidnightMayFail`: a next run can fail the
  window test where clocks fall back across midnight. `WindowTest.EveryOfferPassesExactly` says for which
  zones all pass: those in which no midnight lies strictly inside a repeated stretch of wall time.
- `LoginThrottleRuns.MemoryMayForgetALock`: the in-memory throttle can lose a lock that SQLite keeps,
  exactly as `LoginThrottleRuns.LockIsKeptExactly` says.
- `LoginThrottleRuns.ResetResultsMayDiffer`: the two report a reset differently, but only for expired
  failures, and only in one direction (`LoginThrottleRuns.ResetsAgreeUnlessExpired`);
  `LoginThrottleRuns.RowGoesAloneExactly` says which event brings that about.
- `DnsName.QuestionRoundTrip`: labels are not limited to 63 bytes; the exact limit is 191.
- `AssetPage.PrefixRangeIsPrefix`: values that continue a prefix with U+10FFFF are not found.

## Model

| member | source | states |
|---|---|---|
| BatchRegistration.RegistrationIsAllOrNothing | backend/app/active_assets.py:820-858 | Whichever write fails, wherever the registration or its rollback is cut short, and however often recovery is cut short afterwards: the first recovery that finishes leaves all records with the receipt, or the disk without the batch |
| BatchRegistration.RecoveryCutKeepsResolution | backend/app/active_assets.py:1744-1778 | Cutting recovery short after any write leaves a disk that resolves to the same final state |
| BatchRegistration.RestartsKeepResolution | backend/app/active_assets.py:1744-1778 | The same over any number of interrupted recoveries |
| BatchRegistration.RecoveryResolves | backend/app/active_assets.py:1744-1778 | A recovery that visits every journal ends in exactly the closed-form resolution: no journal left, every batch settled |
| BatchRegistration.AttemptReaches | backend/app/active_assets.py:838-857 | After any fault and any cut the disk is at one of the coherent stages of a registration or rollback |
| BatchRegistration.AttemptEnds | backend/app/active_assets.py:838-857 | An attempt that is not cut short leaves the whole batch if no write failed and the old disk otherwise |
| BatchRegistration.RunsKeepReceiptsSound | backend/app/active_assets.py:1335-1350 | Over every run of registrations, recoveries, deletions and updates, each cut short anywhere: a receipt whose journal is gone names only existing records |
| BatchRegistration.DeletionKeepsReceipts | backend/app/active_asset_deletion.py:340-347 | A deletion cut short between its writes keeps that, because receipts go before the asset |
| BatchStore.ActiveAssetStore.CreateMany | backend/app/active_assets.py:760-858 | Each answer exactly in its case, in the order of the source: a batch that is empty, too long or repeats an identity, a repeated request with another content, an unreadable or missing record, a pending deletion, an asset registered already, a file in the way, a replay of the same batch; otherwise the write sequence above, where created means the whole batch and any other outcome an unchanged disk. No two assets share type and target afterwards if none did before |
| BatchRegistration.RunsKeepIdentitiesUnique | backend/app/active_assets.py:735-858 | Over every run of registrations, batches, recoveries, deletions and updates, each cut short anywhere: no two assets on the disk share type and target |
| BatchRegistration.CheckAnswers | backend/app/active_assets.py:774-836 | What the checks before the first write answer, case by case in the fields of receipt, records and assets |
| BatchRegistration.ChecksInFields | backend/app/active_assets.py:774-833 | A batch is one of distinct types and targets, and is refused exactly if one of them is registered already |
| BatchRegistration.RecoveryOnlyRemoves | backend/app/active_assets.py:1744-1778 | Recovery, cut short anywhere, adds no asset and changes none |
| BatchStore.ActiveAssetStore.Attempt | backend/app/active_assets.py:838-857 | The writes of one attempt in which one write may fail, with rollback |
| BatchStore.ActiveAssetStore.Rollback | backend/app/active_assets.py:852-857 | The rollback removes the records created so far, then the receipt, then the journal |
| BatchStore.ActiveAssetStore.RecoverBatchTransactions | backend/app/active_assets.py:1744-1778 | The recovery loop performs the recovery writes and, if every journal is listed, reaches the resolution |
| BatchStore.ActiveAssetStore.DeleteForDeletion | backend/app/active_assets.py:1318-1350 | Receipts that name the asset are removed before its file; no other receipt, file or journal goes |
| AssetDeletion.DeletionConverges | backend/app/active_asset_deletion.py:192-223 | Clean-ups cut short anywhere, any number of times, all keep the same closed-form end state, and the next run reaches it exactly if the last cut left an audit chain that fits the events |
| AssetDeletion.CleanupKeepsEnd | backend/app/active_asset_deletion.py:308-371 | Every sequence of clean-up writes, those of the audit chain included, keeps the end state |
| AssetDeletion.CleanupEndsCleared | backend/app/active_asset_deletion.py:308-371 | A clean-up that ends with nothing left to do has reached exactly the end state, whatever happened before |
| AssetDeletion.OtherAssetsKeepTheirs | backend/app/active_asset_deletion.py:308-371 | The end state leaves the file, jobs, verifications, recurrences, approvals and marker of every other asset as they were |
| AssetDeletion.CleaningTakesNothingElse | backend/app/active_asset_deletion.py:308-371 | However a clean-up is cut short: it adds nothing, takes no job that is in flight or unlisted, and leaves every record, file, receipt, marker and audit event that is not of the asset as it was |
| AssetDeletion.ClearedHasNoTrace | backend/app/active_asset_deletion.py:373-397 | The end state holds nothing of the asset, no receipt that names it and no marker |
| AssetDeletion.TracesExactly | backend/app/active_asset_deletion.py:373-397 | What counts as a trace and which receipts name an asset, in the fields of each kind of record |
| AssetDeletion.MarkerGoesLast | backend/app/active_asset_deletion.py:352-363 | In any cut of a clean-up: if the marker is gone, no trace of the asset is left; if the asset is gone, so are its receipts |
| AssetDeletion.TraceNeverReturns | backend/app/active_asset_deletion.py:308-371 | Once nothing of an asset is left, clean-ups of any asset keep it so |
| AssetDeletion.RunsStayClearable | backend/app/active_asset_deletion.py:192-223 | Over clean-ups cut short and other work in between, while admission is closed, no job comes in the way; the clean-up can finish exactly while the audit chain fits the events |
| AssetDeletion.CleanupKeepsClearable | backend/app/active_asset_deletion.py:192-223 | The clean-up of one asset never puts a job in the way of another |
| AssetDeletion.CutStillCleans | backend/app/active_asset_deletion.py:308-371 | A crash after any number of clean-up writes leaves a state that clean-up writes reach |
| AssetDeletion.CleanupKeepsMarker | backend/app/active_asset_deletion.py:352-363 | A clean-up never meets another marker than the one it was started with, if it did not at its start |
| AuditStage.CutKeepsTheSeal | backend/app/product_audit.py:316-339 | Exactly which cuts of the audit stage can be recovered from: those before the first changed event and those after the old chain is out of the way |
| AuditStage.WholeCutKeepsTheSeal | backend/app/active_asset_deletion.py:308-371 | The same for every cut of a whole clean-up, in any of its stages |
| AuditStage.CutCanFinishExactly | backend/app/active_asset_deletion.py:192-223 | A clean-up that could finish can still finish after a cut if and only if the cut is one of those |
| AuditStage.CrashInTheGapIsForGood | backend/app/product_audit.py:331-339 | Killed after the first rewritten event, the stage leaves a marker that stays through every later clean-up |
| AuditStage.BrokenSealStopsDeletions | backend/app/product_audit.py:802-892 | Over every run of clean-ups and other work, a chain that does not fit the events stays so, and no deletion of its organization ever removes its marker |
| AuditStage.RewritingBreaksTheSeal | backend/app/product_audit.py:331-337 | Rewriting events under a chain that fits breaks it unless no event is changed |
| AuditStage.OtherWritesKeepTheSeal | backend/app/active_asset_deletion.py:308-371 | No write outside the audit stage touches events or chain |
| AuditStage.OtherChainsStay | backend/app/active_asset_deletion.py:308-371 | A clean-up never changes whether the chain of another organization fits |
| AssetDeletionService.ActiveAssetDeletionService.Prepare | backend/app/active_asset_deletion.py:225-260 | An existing marker is taken up again for its own organization; otherwise a marker is written exactly for an existing, idle asset, it lists all its jobs and only those, and no job is in the way of the clean-up |
| AssetDeletionService.ActiveAssetDeletionService.Execute | backend/app/active_asset_deletion.py:308-371 | Completes if and only if every job of the asset is listed and ended, the audit chain fits the events and the marker is the same one; fails with the in-flight, audit, orphan or marker error exactly in the other cases; completion means exactly the end state, reached by the writes of a whole clean-up |
| AssetDeletionService.ActiveAssetDeletionService.DeleteJobs | backend/app/active_asset_deletion.py:314-320 | Listed jobs are deleted, missing ones skipped; stops exactly if a listed job is in flight; unlisted jobs stay |
| AssetDeletionService.ActiveAssetDeletionService.AnonymizeAudit | backend/app/product_audit.py:295-340 | Refused exactly if the audit chain does not fit the events; otherwise every event that names the asset or a listed job, as its resource or in its metadata, names the receipt instead, with its organization and action, and no metadata; all others stay, and the chain fits again |
| AssetDeletion.ClearedIsGone | backend/app/product_audit.py:318-337 | The end state in fields: no file, job, challenge, schedule, approval, receipt or marker of the asset, each audit event that named it detached, and everything else as it was |
| AssetDeletion.NothingMentionsTheAsset | backend/app/product_audit.py:318-333 | After that no event names the asset or one of its listed jobs, as the receipt is neither |
| AssetDeletion.ClearedAuditIsDetached | backend/app/product_audit.py:318-333 | Clearing the events detaches exactly those that named the asset or a listed job |
| AssetDeletionService.ObstaclesExactly | backend/app/active_asset_deletion.py:262-306 | What stops a deletion, in the fields of jobs, challenges and chains: a listed or any job in flight, an unlisted job, a pending challenge |
| AssetDeletionService.SealHoldsExactly | backend/app/product_audit.py:802-892 | A chain fits exactly if it seals the events of its organization, each as it is, or is missing |
| AssetDeletionService.ActiveAssetDeletionService.WriteAudit | backend/app/product_audit.py:316-339 | The writes of the stage, in their order: a missing chain is built, the linked events are rewritten, a new chain is swapped in |
| AssetDeletionService.ActiveAssetDeletionService.EnsureSeal | backend/app/product_audit.py:414-442 | A missing chain is built over the present events |
| AssetDeletionService.ActiveAssetDeletionService.ListLinked | backend/app/product_audit.py:318-324 | Every event linked to the asset or a listed job, once |
| AssetDeletionService.ActiveAssetDeletionService.RewriteEvents | backend/app/product_audit.py:325-337 | The loop detaches every listed event, one file at a time |
| AssetDeletionService.ActiveAssetDeletionService.Rotate | backend/app/product_audit.py:545-578 | The new chain fits the events; the old one is moved away before it |
| AssetDeletionService.ActiveAssetDeletionService.ClearEarly | backend/app/active_asset_deletion.py:309-320 | The stages before the audit stage stop exactly at a listed job in flight |
| AssetDeletionService.ActiveAssetDeletionService.RecoverOne | backend/app/active_asset_deletion.py:201-206 | One marker: what recovery makes of it, and what it takes from no other |
| AssetDeletionService.ActiveAssetDeletionService.Delete | backend/app/active_asset_deletion.py:160-190 | Without an earlier marker: absent, refused, completed or, exactly if the audit chain does not fit the events, stopped; completed means the end state |
| AssetDeletionService.ActiveAssetDeletionService.RecoverPending | backend/app/active_asset_deletion.py:192-223 | Every marker whose clean-up could finish is gone afterwards together with every trace of its asset, even if others fail; every marker of an organization whose audit chain does not fit stays; the count is the number of markers removed |
| AssetDeletionService.ClearableExactly | backend/app/active_asset_deletion.py:373-397 | No job is in the way exactly if no listed job is in flight and no job of the asset is unlisted |
| IndexSync.EveryQuerySeesTheStore | backend/app/active_recurrence_index.py:164-257 | Over every run of any number of processes with crashes, restarts, lost databases and failed transactions, in which changes are stored only onto a current table: every query sees the projection of the JSON store |
| IndexSync.SoleProcessSeesTheStore | backend/app/active_recurrence_index.py:164-257 | For a single process the condition holds by itself, wherever it is killed, as long as it does not survive a change that neither the transaction nor the rebuild could store |
| IndexSync.SyncVouchesForTheRest | backend/app/active_recurrence_index.py:164-224 | Exact condition, for a write, a deletion and the deletion of an asset: after storing it the table agrees with the store if and only if before it agreed on every record that the change does not settle itself; the token is current in either case |
| IndexSync.UnguardedStoreHidesARecord | backend/app/active_recurrence_index.py:164-179 | A run in which an unstored change is vouched for by the next one, so that a record stays hidden from queries, also after a restart |
| IndexSync.QueriesSeeTheStore | backend/app/active_recurrence_index.py:245-257 | After the check before a query, by adoption, rebuild or neither, the table is the projection of the store |
| IndexSync.SyncKeepsAgreement | backend/app/active_recurrence_index.py:164-224 | Storing a write, a deletion or the deletion of an asset onto a current table keeps it current and right |
| IndexSync.ChangesCommute | backend/app/active_recurrence_index.py:164-224 | Changing the store and projecting equals projecting and changing the rows |
| IndexSync.ChangeInFields | backend/app/active_recurrence.py:303-319 | A write stores its record and changes the fingerprint; a deletion takes exactly its records and changes the fingerprint exactly if there are any |
| IndexSync.StoredIsRemembered | backend/app/active_recurrence_index.py:164-257 | A query right after a stored change neither adopts nor rebuilds |
| IndexSync.ActKeepsSound | backend/app/active_recurrence_index.py:245-351 | Every action of one process keeps what every process remembers true |
| RecurrenceIndex.ActiveRecurrenceIndex.DueRecords | backend/app/active_recurrence_index.py:41-95 | The answer is the first `limit` eligible records of all due ones in the JSON store by next run and identifier, whatever the table held before and however many batches it takes; in fields: active, next run and retry not later than the reading, eligible, in order, and whatever of that is left out comes after a full answer |
| RecurrenceIndex.FirstDueIsFirst | backend/app/active_recurrence_index.py:54-95 | The specification of the answer means that, for any store, reading, limit and eligibility |
| RecurrenceIndex.DueIsDue | backend/app/active_recurrence_index.py:55-59 | The clauses of the query and the schedules' own notion of being due agree |
| RecurrenceIndex.ActiveRecurrenceIndex.ReadPages | backend/app/active_recurrence_index.py:54-95 | The cursor loop reads the batches of 100 to exactly that result and ends |
| RecurrenceIndex.ActiveRecurrenceIndex.ScanPage | backend/app/active_recurrence_index.py:84-91 | The inner loop keeps exactly the eligible records of one batch up to the limit |
| RecurrenceIndex.ActiveRecurrenceIndex.ScanRow | backend/app/active_recurrence_index.py:84-91 | One row is loaded and its record kept exactly if it is eligible |
| RecurrenceIndex.ActiveRecurrenceIndex.Rebuild | backend/app/active_recurrence_index.py:259-336 | Row by row the rebuilt table becomes the projection of the store, with its fingerprint |
| RecurrenceIndex.ActiveRecurrenceIndex.AdoptExisting | backend/app/active_recurrence_index.py:338-351 | A database left by an earlier process is adopted exactly if it is sound and was taken from the present directory |
| RecurrenceIndex.ActiveRecurrenceIndex.Refresh | backend/app/active_recurrence_index.py:245-257 | Adopts, rebuilds or keeps as the check before each query does |
| RecurrenceIndex.ActiveRecurrenceIndex.SyncAfter | backend/app/active_recurrence_index.py:164-224 | Stores a change in one transaction, or rebuilds when that fails; does nothing in a process that has not used the index |
| RecurrenceIndex.ActiveRecurrenceIndex.LoadValidated | backend/app/active_recurrence_index.py:226-243 | A row is answered with its record exactly if they agree in every field |
| RecurrenceIndex.ActiveRecurrenceIndex.RecordsForAsset | backend/app/active_recurrence_index.py:97-116 | The records of an asset are those of the store |
| RecurrenceIndex.PageBehindCursor | backend/app/active_recurrence_index.py:61-80 | The batch behind the cursor is the front of what the whole order has left |
| RecurrenceWindow.NextWindowTime | backend/app/active_recurrence.py:681-706 | The loop finds the offer of the first local day that has one, or none exactly if no day of the year has one |
| RecurrenceWindow.SearchReachesExactly | backend/app/active_recurrence.py:691-706 | In a zone that reads back no wall time before some day, that day's window is found exactly if it is at most 370 days ahead |
| RecurrenceWindow.OfferIsInWindow | backend/app/active_recurrence.py:690-705 | In any zone an offer is not before the candidate and lies inside the window of a listed weekday |
| RecurrenceWindow.WithinExactly | backend/app/active_recurrence.py:670-678 | In any zone the window test accepts exactly the instants inside the window of their own local day, its end excluded |
| RecurrenceWindow.BoundsExactly | backend/app/active_recurrence.py:709-726 | In any zone a day's window runs from the earliest reading of its first wall time to the latest of its last, and is dropped exactly if one of them has none or the weekday is not listed |
| RecurrenceWindow.ReadingsExactly | backend/app/active_recurrence.py:729-737 | The readings of a wall time are exactly the instants that the zone maps to it and back |
| RecurrenceWindow.WeekdaysFollow | backend/app/active_recurrence.py:717-718 | Local days get the weekdays of the calendar |
| RecurrenceWindow.JittersCoverAQuarter | backend/app/active_recurrence.py:632-640 | The jitters are exactly the seconds from 1 to 900 |
| WindowTest.EveryOfferPassesExactly | backend/app/active_recurrence.py:670-706 | For every zone with offsets below a day, instants that read back from their wall time, and at most one change in three days: whatever the search finds, for any window, candidate and jitter, passes the window test if and only if no midnight lies strictly inside a repeated stretch of wall time |
| WindowTest.OfferAtTheFallFails | backend/app/active_recurrence.py:681-706 | Where one does, the search from that very instant finds it in the first hour of the day, and the test refuses it |
| WindowTest.OfferStaysInItsDay | backend/app/active_recurrence.py:690-705 | Where none does, an offer lies on the local day that made it |
| WindowTest.FallingBackPassesExactly | backend/app/active_recurrence.py:670-706 | In a zone that falls back once by an hour everything passes if and only if no midnight lies between the ends of that hour; falling back exactly to midnight is fine |
| WindowTest.OffersPassWhereDaysNeverReturn | backend/app/active_recurrence.py:670-706 | In any zone at all that never falls back to or across a midnight, what the search finds passes the window test |
| WindowTest.OfferAcrossMidnightMayFail | backend/app/active_recurrence.py:670-706 | In a zone that falls back from 00:05 to 23:05 the first offer for the first hour of the day passes exactly if its jitter is below the five minutes |
| RecurrenceWindow.FixedZoneAlwaysOffers | backend/app/active_recurrence.py:681-706 | With one offset some window is offered within a week and a day, so the search does not fail |
| RecurrenceWindow.FixedZoneMeetsAWindow | backend/app/active_recurrence.py:670-706 | With one offset the result passes the window test, is less than seven days after the candidate, and is the candidate itself exactly if that passes the test |
| RecurrenceWindow.FixedZoneMeetsTheNextWindow | backend/app/active_recurrence.py:700-705 | Otherwise it lies, by the jitter, in the first window that starts after the candidate |
| RecurrenceWindow.FixedReadings | backend/app/active_recurrence.py:729-737 | With one offset every wall time has exactly one reading |
| RecurrenceWindow.RetriesBackOff | backend/app/active_recurrence.py:473-477 | A retry waits between 300 and 21660 seconds and never less than the retry before it |
| RecurrenceWindow.WindowTimeIsNotBefore | backend/app/active_recurrence.py:681-706 | A window time is not before its candidate |
| RecurrenceSchedule.StopWins | backend/app/active_recurrence.py:335-343 | Over every interleaving in which each operation writes before the time it computed: a paused or suspended schedule stays so until a resume, whatever the dispatcher still holds, also when several changes share one clock reading |
| RecurrenceSchedule.OnlyResumeActivates | backend/app/active_recurrence.py:345-498 | Only a resume, or a creation, makes a schedule active that was not |
| RecurrenceSchedule.OccurrenceKeysNeverRepeat | backend/app/active_recurrence.py:623-629 | No two dispatches of a run share an occurrence key |
| RecurrenceSchedule.DispatchesAreSpaced | backend/app/active_recurrence.py:434-462 | The dispatched due times of a schedule lie at least its interval and a second apart |
| RecurrenceSchedule.AcceptedDispatchIsDue | backend/app/active_recurrence.py:434-462 | An accepted dispatch is of the stored schedule, active and due, and an interval after every earlier one; stale ones are refused |
| RecurrenceSchedule.RunsStaySafe | backend/app/active_recurrence.py:219-225 | In every run an active schedule has an authorization expiry, its next run lies before it, and so does its next retry if there is one |
| RecurrenceSchedule.StepKeepsSafe | backend/app/active_recurrence.py:335-548 | Every operation keeps that, the faithfulness of listings, the spacing of dispatches, and that no active schedule is due at its own token |
| RecurrenceSchedule.LateWritesLoseStops | backend/app/active_recurrence.py:434-498 | The exact limit of that: what an operation writes can be dispatched in spite of a later pause if and only if it wrote at or after the run or retry that it had computed |
| RecurrenceSchedule.LateWritesHappen | backend/app/active_recurrence.py:464-498 | A run from the empty store after which a late failure is plausible and loses a stop |
| RecurrenceSchedule.PauseIsOutlivedExactly | backend/app/active_recurrence.py:541-545 | A listing survives some pause if and only if the schedule was due at its own token |
| RecurrenceSchedule.OutlivedPauseIsLost | backend/app/active_recurrence.py:541-545 | Then the dispatch that follows makes the paused schedule active again |
| RecurrenceSchedule.PromptWritesAreTimely | backend/app/active_recurrence.py:434-498 | An operation that writes within five minutes of its reading writes before the time it computed |
| RecurrenceSchedule.RetryIsMinutesAway | backend/app/active_recurrence.py:473-482 | A retry lies at least five minutes after the reading it counts from |
| RecurrenceSchedule.ListedIsCurrent | backend/app/active_recurrence.py:541-542 | A listed schedule that carries the stored token is the stored schedule, active and due |
| RecurrenceSchedule.NextRunIsAnIntervalAway | backend/app/active_recurrence.py:652-667 | A next run lies at least the interval and a second after the reading it counts from |
| RecurrenceSchedule.Migrated | backend/app/active_recurrence.py:575-584 | Reading never leaves a schedule of the older format, without expiry, active |
| RecurrenceHistory.HistoryIsStored | backend/app/active_recurrence.py:200-498 | In every run from the empty store each schedule holds what its own events tell: the grant and expiry of its last creation or resume, the run computed since, the last due time dispatched, and its failures since it was last created, resumed or dispatched, counted up to eight |
| RecurrenceHistory.RetriesFollowTheHistory | backend/app/active_recurrence.py:464-498 | In every run the retry after so many failures in a row is the first window time behind 5, 10, 20, 40, 80, 160, 320 or 360 minutes and the spread of the attempt, and the stored count goes up to eight |
| RecurrenceHistory.DelaysAreTabled | backend/app/active_recurrence.py:472-475 | The computed delays are those eight and the spread |
| RecurrenceStore.ActiveRecurrenceStore.Mutate | backend/app/active_recurrence.py:532-548 | A schedule changes only for the caller that names its asset and its token, which is then replaced |
| RecurrenceStore.ActiveRecurrenceStore.NextRun | backend/app/active_recurrence.py:652-667 | Finds the next run, or none exactly if there is none |
| RecurrenceStore.ActiveRecurrenceStore.NextRetry | backend/app/active_recurrence.py:473-482 | Finds the retry time behind the backed-off delay, or none exactly if there is none |
| RecurrenceWindow.WindowTimeIsUnique | backend/app/active_recurrence.py:681-706 | A candidate has one window time at most |
| RecurrenceSchedule.NextRunIsUnique | backend/app/active_recurrence.py:652-667 | So a schedule has one next run at most |
| RecurrenceStore.ActiveRecurrenceStore.Create | backend/app/active_recurrence.py:200-269 | A schedule is created exactly if its identifier and target are free, the organization has room, no deletion of the asset is pending and its next run exists and lies before the expiry, and that is the creation step of a run; a repeated request is answered with the schedule it created exactly if the two agree |
| RecurrenceStore.ActiveRecurrenceStore.Resume | backend/app/active_recurrence.py:345-385 | Accepted exactly for its asset, the current token and a next run before the new expiry, with each refusal in its case; writes an active schedule with the new grant and expiry, that run, no retry and no failures, and changes nothing else |
| RecurrenceStore.ActiveRecurrenceStore.Pause | backend/app/active_recurrence.py:335-343 | For its asset and the current token only: status and token change, grant, runs and failures stay, no other schedule changes |
| RecurrenceStore.ActiveRecurrenceStore.Suspend | backend/app/active_recurrence.py:387-399 | The same for a suspension, for the listed version only |
| RecurrenceStore.ActiveRecurrenceStore.SuspendForAsset | backend/app/active_recurrence.py:401-432 | Every running schedule of the asset is suspended whatever its token and keeps the rest, all others stay; the result counts them |
| RecurrenceStore.ActiveRecurrenceStore.RecordDispatch | backend/app/active_recurrence.py:434-462 | Accepted exactly for the listed version and an available window; the due time becomes the last one, the new run is stored, failures and retry are forgotten, and the schedule is suspended exactly if the run reaches the expiry |
| RecurrenceStore.ActiveRecurrenceStore.RecordFailure | backend/app/active_recurrence.py:464-498 | Accepted exactly for the listed version and an available retry time; stores one more failure than listed, at most eight, and the retry, or suspends without one exactly if it reaches the expiry; all else stays |
| DnsName.DecodeName | backend/app/active_dns_inventory.py:920-953 | Returns a name exactly when the label and pointer chain reaches a zero byte, with that chain's labels and the offset to resume at; reports a loop exactly when the chain never ends; reports every other error exactly when the chain runs into it |
| DnsName.ReadMove | backend/app/active_dns_inventory.py:936-949 | What the byte at an offset makes the loop do next |
| DnsName.EndIsUnique | backend/app/active_dns_inventory.py:920-953 | A chain has at most one end, so at most one name or error |
| DnsName.EndlessExcludesEnds | backend/app/active_dns_inventory.py:936-945 | A cyclic chain spells no name and meets no error |
| DnsName.EncodedNameSpells | backend/app/active_dns_inventory.py:820-824 | Encoded labels followed by a zero byte decode to themselves, resuming just behind |
| DnsName.CompressedNameSpells | backend/app/active_dns_inventory.py:936-945 | Labels followed by a pointer to any offset that spells the rest spell the whole name, resuming just behind the pointer; section 4.1.4 of RFC 1035 |
| DnsName.QuestionRoundTrip | backend/app/active_dns_inventory.py:820-824 | The question of a query decodes to its name if and only if every label has 1 to 191 bytes, which covers every name of RFC 1035 |
| DnsName.NameTextInCharacters | backend/app/active_dns_inventory.py:950-953 | The text of a name, character by character: ASCII bytes as they are and others as U+FFFD, letters in lower case, only trailing dots gone |
| DnsName.QueryBytes | backend/app/active_dns_inventory.py:820-824 | The bytes around the question: identifier, flags, one question and no records before it, type and class behind it, in network order; section 4.1.1 of RFC 1035 |
| DnsName.QueryIsBuilt | backend/app/active_dns_inventory.py:820-824 | A query is built exactly for a name whose labels are ASCII and at most 255 characters long |
| DnsName.BadLabelResumesEarly | backend/app/active_dns_inventory.py:820-824 | A label of any other length makes parsing resume too early |
| DnsName.VisitsAreBounded | backend/app/active_dns_inventory.py:926-930 | The offsets visited number at most the packet length, so the loop ends |
| LoginThrottleRuns.StoresAgree | backend/app/auth_state_sqlite.py:634-725 | On any events with a non-decreasing clock and at most `maxKeys` failing keys, the SQLite store and the in-memory store show the same, namely what the key's history means |
| LoginThrottleRuns.MemoryHoldsHistory | backend/app/auth.py:163-278 | The in-memory entry of a key means the same as its history |
| LoginThrottleRuns.TableHoldsHistory | backend/app/auth_state_sqlite.py:270-395 | The row of a key means the same as its history |
| LoginThrottleRuns.CountedFailuresAreBounded | backend/app/auth.py:163-196 | Without a reset, at most `maxFailures` failures count for each started span of the shorter of window and lockout, in any interval |
| LoginThrottleRuns.BurstLocks | backend/app/auth.py:163-196 | A burst of failures after whatever is over counts from one, and the last allowed one locks the key from then on for exactly the lockout |
| LoginThrottle.FailureInFields | backend/app/auth.py:163-196 | One more failure in fields: ignored under a lock, the first again if what there was is over, otherwise counted |
| LoginThrottle.CountdownIsExact | backend/app/auth.py:215-227 | The countdown is exact to the second: a second before its end the key is still locked, at its end it is not |
| LoginThrottle.StripTrims | backend/app/auth.py:274-278 | A client key loses the spaces around it and nothing else |
| LoginThrottleRuns.TableKeepsLock | backend/app/auth_state_sqlite.py:355-395 | In SQLite a lock is neither shortened, extended nor evicted while it holds, with any number of keys |
| LoginThrottleRuns.MemoryMayForgetALock | backend/app/auth.py:262-265 | A run in which the in-memory store evicts a locked key that every SQLite run keeps locked |
| LoginThrottleRuns.LockIsKeptExactly | backend/app/auth.py:194-196 | A lock survives an event in memory if and only if that is neither a reset of the key nor the failure of a new key while the store is full and this entry is the first to go: least recent and, among equals, inserted first |
| LoginThrottleRuns.MemoryKeepsLock | backend/app/auth.py:163-265 | Over every run a lock stays in memory as it is, until its time, as long as neither happens |
| LoginThrottleRuns.NextEventKeepsLockExactly | backend/app/auth.py:163-265 | The same in every state of every run |
| LoginThrottleRuns.MemoryStaysSmall | backend/app/auth.py:262-265 | The in-memory store never holds more than `maxKeys` keys after an operation |
| LoginThrottleRuns.StoreRunIsMemoryRun | backend/app/auth.py:163-278 | What holds of the entries of every run, whatever the order of eviction among equals, holds of the dictionary with its order of insertion |
| LoginThrottleRuns.TableIsInMemory | backend/app/auth_state_sqlite.py:634-725 | With few failing keys the table holds nothing that the in-memory store does not hold, with the same attempts |
| LoginThrottleRuns.RowGoesAloneExactly | backend/app/auth_state_sqlite.py:664-675 | An event takes a row from the table alone if and only if the row has expired and a query of another key meets an entry that is over |
| LoginThrottleRuns.ResetResultsMayDiffer | backend/app/auth_state_sqlite.py:690-691 | A run in which a reset reports expired failures as removed in memory and as absent in SQLite |
| LoginThrottleRuns.ResetsAgreeUnlessExpired | backend/app/auth_state_sqlite.py:690-691 | Both stores report a reset alike whenever the history of the key is absent or live; they differ only if it has expired, and then memory reports it as removed and SQLite as absent |
| LoginThrottle.LoginAttemptStore.RecordFailure | backend/app/auth.py:163-196 | Records what the previous attempts and one more failure make, evicting beyond the limit the least recent keys, the first inserted among equals |
| LoginThrottle.LoginAttemptStore.EvictOldestKeys | backend/app/auth.py:262-265 | Drops exactly the excess, each dropped entry less recent than every kept one or as recent and inserted before it |
| LoginThrottle.LoginAttemptStore.OldestKey | backend/app/auth.py:264 | The first of the least recent keys in the order of the dictionary |
| LoginThrottle.LoginAttemptStore.IsLocked | backend/app/auth.py:198-214 | Answers what the entry means now and drops it if it has expired |
| LoginThrottle.LoginAttemptStore.SecondsUntilUnlock | backend/app/auth.py:216-227 | The remaining lock time in whole seconds, rounded up, or zero |
| LoginThrottle.LoginAttemptStore.FailureCount | backend/app/auth.py:244-252 | The count of a live entry |
| LoginThrottle.LoginAttemptStore.ResetSuccess | backend/app/auth.py:229-231 | Removes the entry and says whether there was one |
| LoginThrottle.LoginAttemptStore.PurgeExpired | backend/app/auth.py:233-242 | Drops exactly the expired entries |
| LoginThrottle.SQLiteLoginAttemptStore.RecordFailure | backend/app/auth_state_sqlite.py:651-662 | The step that records the failure, then the step that prunes; in runs they are two events, so that other calls or a crash may come between them |
| LoginThrottle.SQLiteLoginAttemptStore.RecordLoginFailure | backend/app/auth_state_sqlite.py:270-316 | Records what the previous row and one more failure make |
| LoginThrottle.SQLiteLoginAttemptStore.PruneLoginAttempts | backend/app/auth_state_sqlite.py:355-395 | Drops the oldest unlocked rows beyond the limit and no locked row |
| LoginThrottle.SQLiteLoginAttemptStore.CleanupLoginAttempts | backend/app/auth_state_sqlite.py:337-353 | Drops exactly the expired rows |
| LoginThrottle.SQLiteLoginAttemptStore.IsLocked | backend/app/auth_state_sqlite.py:664-675 | Answers what the row means now; an expired row triggers the clean-up of all expired rows |
| LoginThrottle.SQLiteLoginAttemptStore.SecondsUntilUnlock | backend/app/auth_state_sqlite.py:677-688 | The remaining lock time in whole seconds, rounded up, or zero |
| LoginThrottle.SQLiteLoginAttemptStore.FailureCount | backend/app/auth_state_sqlite.py:696-704 | The count of a live row |
| ChangeApprovalRuns.ExecutionNeedsFourEyes | backend/app/active_change_approvals.py:228-276 | Over every run, restarts included: what executes or was consumed had been claimed by its requester for that very change before its expiry, after an administrator other than the requester approved it before its expiry |
| ChangeApprovalRuns.ConsumedOnce | backend/app/active_change_approvals.py:278-291 | Over every run each approved change is consumed at most once |
| ChangeApprovalRuns.EndedStaysEnded | backend/app/active_change_approvals.py:382-428 | A consumed, rejected, expired or interrupted record keeps its status for as long as it is kept |
| ChangeApprovalRuns.ClaimMatchingIsExact | backend/app/active_change_approvals.py:253-276 | Claiming by content succeeds exactly if a match exists; it is never ambiguous |
| ChangeApprovalRuns.RunIsValid | backend/app/active_change_approvals.py:98-113 | Over every run the stored collection satisfies the lifecycle validator although updates bypass it: terminal records hold no review target, and at most one actionable record exists per change and requester |
| ChangeApprovals.StepFollows | backend/app/active_change_approvals.py:164-428 | Every operation keeps the collection valid and moves each record by at most one permitted transition |
| ChangeApprovals.NormalizeKeepsValid | backend/app/active_change_approvals.py:403-428 | After normalization nothing pending or approved is past its expiry |
| ChangeApprovals.RecoverFollows | backend/app/active_change_approvals.py:293-320 | Restart recovery interrupts what was executing and keeps the collection valid |
| ChangeApprovals.NewRecordKeepsValid | backend/app/active_change_approvals.py:176-206 | A request is stored only if none is under way for the same change and requester |
| ChangeApprovals.RequestFollows | backend/app/active_change_approvals.py:164-206 | A request answers with the one under way, refuses at capacity, or adds a valid record |
| ChangeApprovals.DecideFollows | backend/app/active_change_approvals.py:382-401 | A decision is by an administrator other than the requester on a pending record |
| ChangeApprovals.ClaimFollows | backend/app/active_change_approvals.py:228-251 | A claim is by the requester of an approved, unexpired record for the same change |
| ChangeApprovals.FinishFollows | backend/app/active_change_approvals.py:278-291 | Finishing consumes an executing record or returns it to approved |
| ChangeApprovalStore.ActiveChangeApprovalStore.Request | backend/app/active_change_approvals.py:164-206 | The step of a request on its organization; all others stay. In fields: answered with the one under way for the same change and requester, refused at 500 kept records or for a summary that does not fit, otherwise stored as pending for a day |
| ChangeApprovalStore.ActiveChangeApprovalStore.Decide | backend/app/active_change_approvals.py:382-401 | The step of a decision; in fields, each refusal exactly in its case, otherwise decider, time, status and, on a rejection, the scrubbed summary, with every other record normalized |
| ChangeApprovalStore.ActiveChangeApprovalStore.Claim | backend/app/active_change_approvals.py:228-251 | The step of a claim; in fields, each refusal exactly in its case, otherwise executing and nothing else changed, with every other record normalized |
| ChangeApprovalStore.ActiveChangeApprovalStore.ClaimMatching | backend/app/active_change_approvals.py:253-276 | The step of a claim by content; in fields, the one approved and unexpired record for the requester's change, or a refusal exactly if there is none |
| ChangeApprovalStore.ActiveChangeApprovalStore.Finish | backend/app/active_change_approvals.py:278-291 | The step of finishing; in fields, consumed now with the summary scrubbed, or approved again; no other record changes |
| ChangeApprovalStore.ActiveChangeApprovalStore.RecoverInterrupted | backend/app/active_change_approvals.py:293-320 | The loop recovers every organization's collection; in fields, exactly the executing records are interrupted, and only what ended more than ninety days ago goes |
| ChangeApprovalStore.ActiveChangeApprovalStore.RemoveAsset | backend/app/active_change_approvals.py:329-340 | Removes exactly the asset's records and counts them |
| ChangeApprovalStore.ActiveChangeApprovalStore.PurgeTerminal | backend/app/active_change_approvals.py:342-364 | Removes exactly the records that had ended, by consumption, decision or request in this order, before the cutoff, expires what is due, keeps all others as they are, and counts what it removed |
| ChangeApprovalRetention.EndedStaysForNinetyDays | backend/app/active_change_approvals.py:403-428 | Over every run: from the event that ends it a record stays for ninety days, unchanged in every field, unless it is purged or its asset deleted |
| ChangeApprovalRetention.EndedGoesAfterNinetyDays | backend/app/active_change_approvals.py:416-428 | And any later listing or restart drops it |
| ChangeApprovalRetention.UnderWayNeverGoes | backend/app/active_change_approvals.py:416-428 | Over every run: without purges and deletions a record is kept as long as it has not ended |
| ChangeApprovalRetention.RecordsLeaveForAReason | backend/app/active_change_approvals.py:329-428 | Over every run: a record that is gone was at some event of a deleted asset, purged, or ended ninety days before |
| ChangeApprovalRetention.EndedNeverChanges | backend/app/active_change_approvals.py:278-428 | Over every run: an ended record keeps every field for as long as it is kept |
| ChangeApprovalRetention.StepRecordsEnds | backend/app/active_change_approvals.py:278-428 | Whatever ends a record writes its own time as the end |
| ChangeApprovalMeaning.NormalizeExactly | backend/app/active_change_approvals.py:403-428 | Normalizing drops a record exactly if it ended more than ninety days ago, expires exactly what is due and changes nothing else |
| ChangeApprovalMeaning.UnderWayStays | backend/app/active_change_approvals.py:416-428 | In a valid collection only an ended record can be dropped |
| ChangeApprovalMeaning.PurgeExactly | backend/app/active_change_approvals.py:342-364 | The same for a purge and its cutoff |
| ChangeApprovalMeaning.RecoverExactly | backend/app/active_change_approvals.py:293-320 | A restart interrupts exactly what was executing and drops only what ended more than ninety days ago |
| ChangeApprovalMeaning.RequestIsAnswered | backend/app/active_change_approvals.py:164-206 | A request's answer and what it stores, in fields |
| ChangeApprovalMeaning.DecideIsAnswered | backend/app/active_change_approvals.py:382-401 | A decision's answer and what it stores, in fields |
| ChangeApprovalMeaning.ClaimIsAnswered | backend/app/active_change_approvals.py:228-251 | A claim's answer and what it stores, in fields |
| ChangeApprovalMeaning.ClaimMatchingIsAnswered | backend/app/active_change_approvals.py:253-276 | The same for a claim by content, which finds its record exactly if it was approved and has not expired |
| ChangeApprovalMeaning.FinishIsAnswered | backend/app/active_change_approvals.py:278-291 | Finishing's answer and what it stores, in fields |
| ChangeApprovalMeaning.PurgeRevises | backend/app/active_change_approvals.py:342-414 | Expiring anything raises the revision by one, dropping anything by one more, and nothing else does |
| ChangeApprovalMeaning.NormalizeRevisesBy | backend/app/active_change_approvals.py:403-428 | The same for normalizing |
| ChangeApprovalMeaning.RecoverRevisesBy | backend/app/active_change_approvals.py:293-320 | And for a restart, with one more if it interrupts anything |
| ChangeApprovalMeaning.RevisionsTellCollections | backend/app/active_change_approvals.py:164-433 | Over every run two moments with the same revision have the same collection |
| JobHistory.FollowedToTheEnd | backend/app/active_job_index.py:591-700 | Following the cursors shows every job of the first snapshot exactly once, newest first, with the same total on every page, whatever newer jobs are saved meanwhile; the cursor ends exactly when all were shown |
| JobHistory.WhatStaysIsShownOnce | backend/app/active_job_index.py:591-700 | Whatever is saved, changed or deleted between the pages: no job is shown twice, jobs come newest first, and a job that matches throughout is shown by the time the cursors end |
| JobHistory.PagesShowAFront | backend/app/active_job_index.py:591-700 | After any number of pages exactly a front part of that order was shown, and the cursor points at its end |
| JobHistory.PagesMakeProgress | backend/app/active_job_index.py:689-699 | Every page with a successor is full |
| JobHistory.IssuedCursorIsOrdered | backend/app/active_job_index.py:689-699 | An issued boundary is not newer than its cutoff |
| JobHistory.ActiveJobIndex.ReadPage | backend/app/active_job_index.py:591-700 | Counts, reads one row more than the page and loads the records behind the cursor; in fields: the newest wanted jobs not newer than the cutoff and older than the boundary, the number of all not newer than the cutoff, and a next cursor exactly if something is left |
| JobHistory.ActiveJobIndex.LoadSelected | backend/app/active_job_index.py:674-689 | The selected records in their order, each compared with its row; over a table that agrees with the files none is refused |
| JobHistory.PageListsNewest | backend/app/active_job_index.py:591-700 | The specified page means that, for any table and cursor |
| JobHistory.VisibleExactly | backend/app/active_job_index.py:620-660 | What the filter and the cutoff let through, in the fields of a job |
| JobCursor.IssuedCursorReadsBack | backend/app/active_job_index.py:1073-1147 | Every issued cursor has at most 416 characters, within the limit of 512, and decodes to the same boundary and cutoff |
| JobCursor.AcceptedCursorIsSealed | backend/app/active_job_index.py:1104-1147 | An accepted cursor is the one canonical, signed spelling of its payload, and its payload fits owner, filter and order |
| JobCursor.AcceptedExactly | backend/app/active_job_index.py:1104-1147 | A cursor is accepted with a boundary and a cutoff if and only if it has at most 512 characters and is the sealed form of a document for this owner and filter that holds them, with hexadecimal identifiers, times in range and a boundary not newer than the cutoff |
| JobCursor.TextDetermines | backend/app/active_job_index.py:1086-1098 | The document text determines the document |
| JobCursor.TextFits | backend/app/active_job_index.py:1086-1098 | A document takes at most 279 bytes of ASCII |
| Base64Url.DecodeInvertsEncode | backend/app/active_job_index.py:1150-1160 | A text decodes to bytes if and only if they are not empty and it is their encoding; sections 3.5 and 5 of RFC 4648 |
| Base64Url.DecodeAcceptsCanonicalText | backend/app/active_job_index.py:1154-1160 | Without mention of encoding: accepted exactly if non-empty, of the alphabet, of a possible length and with zero pad bits |
| Base64Url.SextetsHoldTheBytes | backend/app/active_job_index.py:1150-1151 | Digits hold the bytes, in four for three |
| Base64Url.BytesHoldTheSextets | backend/app/active_job_index.py:1154-1160 | Digits survive decoding exactly if their pad bits are zero |
| AssetPage.PagesAreTheWholeList | backend/app/active_assets.py:1198-1294 | Of a list that does not change, all pages together are every matching asset that is not being deleted, once and in order |
| AssetPage.WhatStaysIsShownOnce | backend/app/active_assets.py:1198-1294 | Whatever is stored, changed or deleted between the pages: no row is shown twice, rows come newest first, and an asset that stays as it is throughout is shown by the time the pages end |
| AssetPage.ActiveAssetStore.QueryPage | backend/app/active_assets.py:1198-1294 | Returns exactly the first `pageSize + 1` matching assets behind the boundary whose deletion is not pending; in fields: the wanted status as shown, value or beginning of it, capability and age, newest first, and whatever of that is left out is older than a full page |
| AssetPage.PageListsNewest | backend/app/active_assets.py:1198-1294 | The specified page means that, for any assets, query and boundary |
| AssetPage.SelectsExactly | backend/app/active_assets.py:1209-1240 | The clauses of the query select exactly what it asks for |
| AssetPage.PagesAreShort | backend/app/active_assets.py:1241-1294 | No page shows more than its size |
| AssetPage.ActiveAssetStore.ReadKeys | backend/app/active_assets.py:1241-1294 | The loop over batches, whatever is skipped, and its end |
| AssetPage.ActiveAssetStore.ScanRows | backend/app/active_assets.py:1271-1288 | The inner loop keeps exactly the rows that are not being deleted and moves the boundary past each row |
| AssetPage.PrefixRangeIsPrefix | backend/app/active_assets.py:1222-1227 | The string range selects exactly the values with the prefix, except those that continue with U+10FFFF |
| AssetPage.StatusClauseIsMaterialized | backend/app/active_assets.py:1213-1220 | The status filter on stored columns agrees with the status computed on reading |
| Verifications.AtMostOnePending | backend/app/active_asset_verification.py:152-190 | In every run an asset has at most one pending challenge, now and at any later moment, also after a start cut short |
| Verifications.SixStartsSpanAnHour | backend/app/active_asset_verification.py:170-172 | Of any six stored challenges of an asset two were started at least an hour apart, whatever the order of the clock readings |
| Verifications.CompletedOnce | backend/app/active_asset_verification.py:262-293 | Over every run each challenge is completed at most once |
| Verifications.SettledStaysSettled | backend/app/active_asset_verification.py:262-319 | A settled challenge is never pending again |
| Verifications.StartKeepsLimit | backend/app/active_asset_verification.py:170-172 | An admitted start leaves room in every hour around it |
| VerificationStore.ActiveAssetVerificationStore.Start | backend/app/active_asset_verification.py:152-190 | Refused, with the error that the source gives, for a stale asset, a pending deletion or five starts in the last hour; otherwise exactly the pending challenges of the asset are revoked, every other record stays, and the new one is stored for fifteen minutes |
| VerificationStore.ActiveAssetVerificationStore.Complete | backend/app/active_asset_verification.py:262-293 | Settles exactly a pending challenge and refuses any other with its status: verified if and only if the observation and the token match, until the asset expires or the requested days are over, whichever is first; no other record changes |
| VerificationStore.ActiveAssetVerificationStore.Revoke | backend/app/active_asset_verification.py:295-307 | Revokes and leaves everything else |
| VerificationStore.ActiveAssetVerificationStore.AttentionAssetIds | backend/app/active_verification_index.py:150-193 | The SQL set is a subset of the assets whose latest record, as it stands now, failed or expired, equal to it exactly if those are no more than the limit, and otherwise the `limit` of them whose latest records are newest |
| Verifications.VerifiedUntilExactly | backend/app/active_asset_verification.py:262-319 | Over every run: a matched challenge that is kept and not revoked counts as verified exactly until the asset expires or the requested days are over |
| Verifications.PendingForAQuarter | backend/app/active_asset_verification.py:152-190 | Over every run: a challenge that nothing settles or replaces is pending exactly for the fifteen minutes after its start |
| Verifications.MaterializedExactly | backend/app/active_asset_verification.py:312-319 | What a stored record means at a reading, status by status |
| VerificationStore.TakenAreNewest | backend/app/active_verification_index.py:150-193 | What the limit of the query leaves out is older than what it shows |
| VerificationStore.AttentionExactly | backend/app/active_verification_index.py:150-193 | An asset needs attention exactly if its latest record failed, expired or has run out |
| VerificationStore.EachAssetHasALatest | backend/app/active_verification_index.py:163-186 | Every asset that has records has one that is latest |
| VerificationStore.ActiveAssetVerificationStore.DeleteForAsset | backend/app/active_asset_verification.py:237-245 | Removes exactly the asset's challenges and counts them |
| VerificationStore.ActiveAssetVerificationStore.RevokePending | backend/app/active_asset_verification.py:173-175 | The loop of a start, wherever it is cut, has revoked pending challenges of the asset and changed nothing else |
| VerificationStore.EachKeyIsAnAsset | backend/app/active_verification_index.py:163-186 | Latest rows belong to different assets |
| Keyset.TimeKeysAreOrdered | backend/app/active_recurrence_index.py:77-78 | Time and identifier order the rows of a table completely, upwards and downwards |
| Keyset.SortedPast | backend/app/active_recurrence_index.py:61-65 | The rows behind a row of an order are its tail |
| AssetDeletionService.ActiveAssetDeletionService.DeleteVerifications | backend/app/active_asset_verification.py:237-245 | Removes exactly the challenges of the asset, by clean-up writes |
| AssetDeletionService.ActiveAssetDeletionService.DeleteRecurrences | backend/app/active_recurrence.py:303-319 | Removes exactly the schedules of the asset, by clean-up writes |
| AssetDeletionService.ActiveAssetDeletionService.RemoveAssetApprovals | backend/app/active_change_approvals.py:329-340 | Removes the approvals of the asset in one save |
| AssetDeletionService.ActiveAssetDeletionService.DeleteReceipts | backend/app/active_assets.py:1335-1350 | Removes exactly the receipts that name the asset |
| AssetDeletionService.ActiveAssetDeletionService.DeleteAsset | backend/app/active_assets.py:1318-1325 | Removes the asset file, after its receipts; a missing file is fine |
| AssetDeletionService.ActiveAssetDeletionService.ClearRest | backend/app/active_asset_deletion.py:322-350 | The stages after the jobs, in their order, refused before the first exactly if the audit chain does not fit; what they leave of the asset can only be a job |
| AssetDeletionService.ActiveAssetDeletionService.ClearRecords | backend/app/active_asset_deletion.py:328-347 | The stages behind the audit stage leave no schedule, approval, receipt or file of the asset |
| AssetDeletion.RemovalIsLate | backend/app/active_asset_deletion.py:340-363 | One clean-up write takes the marker only when no trace is left and the asset only when no receipt names it |
| AssetDeletion.CleanIsCleared | backend/app/active_asset_deletion.py:373-397 | Where a clean-up finds nothing to do, the end state is the present one |
| BatchStore.ActiveAssetStore.Perform | backend/app/active_assets.py:838-857 | One atomic write |
| BatchStore.ActiveAssetStore.AttemptRecords | backend/app/active_assets.py:841-844 | The loop that writes the records, up to the failing write |
| BatchStore.ActiveAssetStore.AttemptCommit | backend/app/active_assets.py:845-851 | The committed journal, the receipt and the removal of the journal, up to the failing write |
| BatchStore.ActiveAssetStore.AttemptWrite | backend/app/active_assets.py:838-857 | One write of an attempt, unless it or an earlier one fails |
| BatchStore.ActiveAssetStore.RecoverJournal | backend/app/active_assets.py:1744-1778 | The recovery of one journal performs its writes |
| LoginThrottle.LoginAttemptStore.NextAttempt | backend/app/auth.py:163-196 | What the previous attempts and one more failure make |
| LoginThrottle.SQLiteLoginAttemptStore.ResetSuccess | backend/app/auth_state_sqlite.py:690-691 | Removes the row and says whether there was one |
| LoginThrottle.SQLiteLoginAttemptStore.PurgeExpired | backend/app/auth_state_sqlite.py:693-694 | Drops exactly the expired rows and counts them |
| RecurrenceStore.ActiveRecurrenceStore.Delete | backend/app/active_recurrence.py:509-520 | Removes the schedule exactly for its asset |
| RecurrenceIndex.ActiveRecurrenceIndex.ReadPage | backend/app/active_recurrence_index.py:54-95 | One turn of the loop: the batch behind the cursor, scanned, and the cursor moved to its end |
| RecurrenceIndex.ActiveRecurrenceIndex.LoadAll | backend/app/active_recurrence_index.py:226-243 | Over a table that agrees with the store no row is refused |
| IndexSync.SoleStepIsGuarded | backend/app/active_recurrence_index.py:164-257 | A single process remembers the index only while its fingerprint is current |
| AssetPage.ActiveAssetStore.ReadBatch | backend/app/active_assets.py:1243-1268 | The rows behind the moving boundary continue the order |
| AssetPage.ActiveAssetStore.NextBatch | backend/app/active_assets.py:1243-1290 | One turn of the loop |
| Verifications.StepKeepsOnePending | backend/app/active_asset_verification.py:152-319 | Every operation keeps at most one pending challenge per asset |
| Verifications.RunsKeepLimit | backend/app/active_asset_verification.py:170-172 | In every run any hour holds at most five starts of an asset |
| JobCursor.SealedIsAccepted | backend/app/active_job_index.py:1104-1147 | The sealed form of an acceptable payload is accepted |
| RecurrenceSchedule.StopKeepsSafe | backend/app/active_recurrence.py:335-399 | Pausing and suspending keep every schedule authorized and every dispatch spaced |
| RecurrenceSchedule.ResumeKeepsSafe | backend/app/active_recurrence.py:345-385 | So does resuming |
| RecurrenceSchedule.DispatchKeepsSafe | backend/app/active_recurrence.py:434-462 | So does a dispatch, accepted or refused |
| RecurrenceSchedule.FailKeepsSafe | backend/app/active_recurrence.py:464-498 | So does a failed dispatch |
| RecurrenceSchedule.SuspendAssetKeepsSafe | backend/app/active_recurrence.py:401-432 | So does suspending all schedules of an asset |

## Left out

- The index of verifications, the index of jobs and the index of assets: the same fingerprint scheme as the recurrence index, except that the asset index keeps one state per organization.
- DNS responses and zone transfer: `_parse_dns_response` and the accumulation loop read sections and records around the modelled name reader.
- Admin sessions, their CSRF cache and password hashing.
- HTTP, sockets, TLS, runners and the job records themselves; the dispatcher's checks of asset, verification and runner before it dispatches.
- File permissions, links, inode checks, file size limits and fsync.
- Text details: Unicode case folding of names, date formats and calendar years past 9999.
- The order of records inside a stored approval collection: it is a map by identifier here, since a loaded collection never repeats one; listing sorts it again.
- The audit chain in detail: order, generation and parent digests are not part of this model, nor are leftover temporary trees, a rotation that fails without a crash and puts the old chain back (which leaves the state of a crash in the gap), and a crash while an event is recorded.
- JobHistory.ActiveJobIndex.ReadPage: starts from a table that agrees with the files; that the check before each query brings this about is shown for the recurrence index only.
- RecurrenceSchedule.RunsStaySafe: the dispatcher acts only on schedules it listed; a caller that hands in other records is not covered.
- JobHistory.FollowedToTheEnd: the constant total and the exact list are claimed for newer jobs only; `JobHistory.WhatStaysIsShownOnce` covers jobs that are changed or deleted meanwhile.
- LoginThrottle.SQLiteLoginAttemptStore.PruneLoginAttempts: its count, its selection and its deletions are taken as one step.
- AssetPage.PagesAreTheWholeList: the store does not change between the pages; `AssetPage.WhatStaysIsShownOnce` covers a store that does, where an asset that is changed meanwhile moves to the front and may be missed.
- ChangeApprovals.StepFollows: the size limit of the stored file is not modelled.
- Asset history limits: some operations append without the check that others make, so no bound is claimed.
