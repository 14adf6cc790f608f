# Protocols behind the assistant, verified

A Dafny model of the stateful parts of the Python API (`apps/api`) and of the TypeScript connectors package
(`packages/connectors`), with proofs of what they keep over whole runs. `dafny verify dfyconfig.toml` checks all of it.

Code that changes state in place is a class whose methods are proved against functions of the old state
(`JobQueue`, `TokenStore`, `RefreshLock`, `RateLimiter`, `AutoChat`, `Approval`, `Cache`, `Discovery`). Where several
processes interleave, a `...Runs` module takes the same functions as the steps of a transition system and proves
properties of every run, of any length, with any number of processes. Databases, Redis, clocks, random values,
ciphers, hashes and provider answers are parameters: the clock and fresh identifiers are passed in, the cipher is any
pair of functions in which opening undoes sealing, the hash is any function.

## The components

- **Job queue** (`JobQueue`, `JobQueueRuns`). A database session is one atomic step, as the docstring of
  `_acquire_job` claims. Some properties hold in every run, stale workers included; the others hold when every worker
  writes its outcome within five minutes of `locked_at` (`LeaseKept`), and some need, besides, that no worker crashes
  (`CrashFree`). What happens without these conditions is counted as well.
- **Envelope encryption** (`Text`, `Base64`, `Encryption`), down to the decimal numeral, the separator and the padding.
- **Token store** (`TokenStore`, `TokenStoreRuns`): keys and tokens at rest, with a key cache in each process.
- **Refresh lock** (`RefreshLock`, `RefreshLockRuns`): each Redis command, row read, provider call and row write is a
  step. The lock protects as long as each holder is done within the lock's thirty seconds (`TtlKept`).
- **Rate limiter** (`RateLimiter`): the deque of each visitor against the list of all requests ever admitted.
- **Calendar sweep and alert state** (`Sorting`, `AutoChat`): the linear sweep against a pairwise definition.
- **Approvals** (`Approval`, `ApprovalRuns`): the service, and the two gated handlers split into validate, act, mark.
- **Redaction** (`StringRedaction`, `Redaction`): object graphs of any shape, cyclic ones included.
- **Response cache** (`CacheKeys`, `Cache`): keys, queries and patterns as strings; two tiers as one map.
- **Discovery** (`Discovery`): check, insert, enqueue, one database or queue call a step, over the queue of `JobQueue`.
- **Slugs** (`Slug`).

## Where code and promise part

The model follows the code. Each item names what shows the failure and, where it is another member, what says
exactly when it happens.

- A late worker's failure makes a DONE job PENDING again and can leave two active jobs of one deduplication id
  (`StaleFailureReopensDoneJob`). `DoneIsLeftOnlyByStaleFailure` says exactly which step leaves DONE, and
  `UniquenessLostExactly` and `DeduplicationHoldsExactly` which step loses deduplication, with no lease assumed.
  So do `DeadLetterLeftOnlyByStaleSuccess` for DLQ and `OneWorkerHoldsExactly` for two workers on one job.
- A missing and an empty deduplication id deduplicate nothing (`EmptyDedupeIdIsNotUnique`); `Enqueue` says when a twin
  is looked up.
- The module docstring promises crash recovery, retries and a dead-letter queue, but the limit binds failures only. A
  lease takeover records no attempt (`CrashingJobIsRetriedForever`), and a watchdog reclaim records one without
  comparing it with the limit (`ReclaimIgnoresLimit`), so either can pass it (`ReclaimedJobExceedsLimit` with no
  takeover at all). `ExecutionsAreAttemptsPlusTakeovers` counts the executions exactly, and
  `RecoveriesBoundExecutions` shows that nothing else passes the limit.
- A key id with a colon makes the stored token unreadable (`TokenRoundTrip`, for every key id). The program's key ids
  are UUIDs.
- A holder that oversleeps, or sleeps between GET and DEL, is overtaken (`OverstayingSpendsTokenTwice`,
  `SlowDeleteAdmitsTwoHolders`). `ExclusionHoldsExactly` and `SpendingLostExactly` say which steps do it.
- A key version created elsewhere while an older one is cached makes tokens unreadable (`CachedKeyLosesTokens`).
  `ForeignKeyVersionMislabelsTokens` says exactly when, for every run and version; `UseDekMatchesExactly` for every key table.
- Waiting the announced `Retry-After` seconds is never enough (`RetryAfterFallsShort`, with the exact moment).
- The conflict fingerprint leaves out the kind of conflict, and separators in titles confuse it
  (`TitlesWithSeparatorsCollide`). `FingerprintsAgreeExactly` says what it stands for otherwise.
- A clock that goes back can send a day's digest again (`DigestRepeatsDay` makes the calls): `CheckAfternoonDigest`
  compares with the last digest only. `OnePerDay` says for every history that the days rise exactly if none is before
  the stored one.
- Handlers of one approval that overlap can act twice (`InterleavedHandlersExecuteTwice`), and so can two when the
  first dies before marking (`LostMarkAllowsSecondExecution`). `ExecutionsAreCounted` counts the executions of every
  run, overlapping or not, `AtMostOneExecutionExactly` says when there is at most one, and `ExclusionHoldsExactly` of
  `ApprovalRuns` which requests make handlers share an approval.
- An approval is bound to tenant, user and kind of action, not to account, draft or event
  (`ActionOnAnotherTarget`, `TargetIsNotCompared`).
- `redactEmail` is idempotent on the empty string and on strings with an `@`, and on no other
  (`RedactEmailIsIdempotent`).
- Secrets listed in mixed case are recognised in that one spelling only (`MixedCaseSecretsInOneSpelling`);
  `EverySpellingListedExactly` says which names are safe in every spelling.
- The dictionary behind the cache never expires, so no time to live ever ends what `get_json` returns (`Tick`). A
  lifetime that is not positive can leave the old value in Redis in front of the new one (`SetJson`, exactly when;
  `RefusedLifetimeShowsOldValue` makes the calls, and `GetJson` says what is read whether or not the tiers agree).
  `delete_pattern` counts an entry once for each tier, and its two glob dialects can disagree on brackets and
  backslashes (`DeletePattern`, exactly when).
- An invalidation also reaches workspaces whose id continues the given one after a colon
  (`ColonInWorkspaceOverreaches`; exactly those, by `InvalidationIsExact`).
- Of a repeated query parameter only the last value enters the key, so reordering repeats changes it
  (`RepeatedNameKeepsLastValue`, `SortedItemsForgetExactly`); separators in values can give two queries one string
  (`SeparatorsConfuseQueries`, `ParamStringDeterminesParams`).
- The triage deduplication id does not name the workspace (`SharedMessageIdIsTriagedOnce`); `TriageSkippedExactly`
  says when a call makes no job.

## Model

| member | source | states |
|---|---|---|
| JobQueue.AdvancedSQLiteQueue.Enqueue | apps/api/app/core/queue.py:38-72 | returns an active job of the given deduplication id, a new one exactly when the id is empty or has no pending or running twin; the new job is pending, due at the given time or now, with three attempts |
| JobQueue.AdvancedSQLiteQueue.AcquireJob | apps/api/app/core/queue.py:74-110 | takes a job that is due, or locked for over five minutes, none such being due earlier, and locks it now; finds nothing only if there is none |
| JobQueue.AdvancedSQLiteQueue.SyncWatchdog | apps/api/app/core/queue.py:124-145 | the loop makes exactly the jobs locked for over ten minutes pending, with one more attempt each |
| JobQueue.AdvancedSQLiteQueue.MarkDone | apps/api/app/core/queue.py:174-183 | the outcome write of a success, whoever holds the lock |
| JobQueue.AdvancedSQLiteQueue.MarkFailed | apps/api/app/core/queue.py:189-212 | the last attempt goes to DLQ, any other is pending and unlocked again, first after two seconds, then after four; a missing job is left alone |
| JobQueue.BackoffDoubles | apps/api/app/core/queue.py:204-205 | one attempt more doubles the delay, from two seconds on |
| JobQueueRuns.AttemptsAreFailuresPlusReclaims | apps/api/app/core/queue.py:133-140 | in every run, stale workers included, `attempts` is the number of recorded failures plus watchdog reclaims |
| JobQueueRuns.DeadLettersStayDead | apps/api/app/core/queue.py:195-200 | in every run a job that was DLQ is never PENDING or RUNNING again, and has used its attempts up |
| JobQueueRuns.DoneIsLeftOnlyByStaleFailure | apps/api/app/core/queue.py:189-212 | a DONE job changes status exactly on the failure of another execution of it, and is pending again exactly if attempts remain |
| JobQueueRuns.DeadLetterLeftOnlyByStaleSuccess | apps/api/app/core/queue.py:174-183 | a DLQ job changes status exactly on the success of an execution of it that was still going on |
| JobQueueRuns.UniquenessLostExactly | apps/api/app/core/queue.py:189-212 | a step from a table without active twins keeps it so exactly unless it is the failure of an execution whose job is settled, has attempts left and has an active twin |
| JobQueueRuns.DeduplicationHoldsExactly | apps/api/app/core/queue.py:43-50 | in every run, stale workers included, deduplication holds throughout exactly if no step is such a failure |
| JobQueueRuns.ExecutionsAreConserved | apps/api/app/core/queue.py:148-212 | in every run each execution of a job has succeeded, failed or crashed, or is going on |
| JobQueueRuns.OneWorkerLostExactly | apps/api/app/core/queue.py:84-104 | a step puts a second worker on a job exactly if it acquires a job that a worker is still executing |
| JobQueueRuns.OneWorkerHoldsExactly | apps/api/app/core/queue.py:84-104 | in every run, however late the workers, no job has two executors at any time exactly if no step does that |
| JobQueueRuns.AtMostOneExecutor | apps/api/app/core/queue.py:84-104 | within the lease, no two workers execute one job, and the executor is `locked_by` |
| JobQueueRuns.ExactlyOneExecutor | apps/api/app/core/queue.py:84-104 | without crashes, a job is RUNNING under `locked_by` exactly when that worker executes it |
| JobQueueRuns.SettledRowsAreFinal | apps/api/app/core/queue.py:174-211 | within the lease, a DONE or DLQ row is never written again |
| JobQueueRuns.OneActiveJobPerDedupeId | apps/api/app/core/queue.py:43-50 | within the lease, at most one PENDING or RUNNING job per nonempty deduplication id, in every interleaving |
| JobQueueRuns.ExecutionsAreAttemptsPlusTakeovers | apps/api/app/core/queue.py:84-145 | within the lease, crashes included, executions are failures plus watchdog reclaims plus lease takeovers, plus one while running or when done; `attempts` holds the first two |
| JobQueueRuns.RecoveriesBoundExecutions | apps/api/app/core/queue.py:84-145 | within the lease, executions exceed `max_attempts` by at most the reclaims and takeovers, so without these the limit holds even if workers crash |
| JobQueueRuns.CrashesBoundExecutions | apps/api/app/core/queue.py:195-206 | within the lease a job is executed at most `max_attempts` times plus once for each crash |
| JobQueueRuns.AtMostMaxAttemptsExecutions | apps/api/app/core/queue.py:195-206 | crash-free within the lease, a job is executed at most `max_attempts` times, and exactly as often if it ends in DLQ |
| JobQueueRuns.DeadLetterTakesTheWholeBackoff | apps/api/app/core/queue.py:199-206 | from first to last failure of a job in DLQ pass at least 2^m - 2 seconds |
| JobQueueRuns.RetryIsDueAfterBackoff | apps/api/app/core/queue.py:203-206 | after its last failure a job that is not in DLQ carries a `run_at` exactly 2^attempts seconds later |
| JobQueueRuns.FirstDelayIsTwoSeconds | apps/api/app/core/queue.py:203-206 | crash-free within the lease, the first failure of a job delays it by two seconds |
| JobQueueRuns.DelaysDouble | apps/api/app/core/queue.py:203-206 | and each further failure that is retried by twice the delay before |
| JobQueueRuns.DeadLetterWaitsOutItsDelays | apps/api/app/core/queue.py:199-206 | between first and last failure of a job in DLQ lie all the delays its failures set: six seconds for three attempts |
| JobQueueRuns.SettlingMeasure | apps/api/app/core/queue.py:195-206 | a natural number per job that every acquisition, success and failure lowers and nothing raises, zero exactly when settled |
| JobQueueRuns.OvertakesAreBounded | apps/api/app/core/queue.py:84-89 | while a due job waits, other acquisitions number at most the jobs ahead of it plus enqueues with an earlier `run_at` |
| JobQueueRuns.OverdueJobIsNotStarved | apps/api/app/core/queue.py:59-89 | default enqueues never jump an overdue job, so only the jobs already ahead can overtake it |
| JobQueueRuns.StaleFailureReopensDoneJob | apps/api/app/core/queue.py:189-212 | a run in which a late failure reopens a DONE job and breaks deduplication |
| JobQueueRuns.EmptyDedupeIdIsNotUnique | apps/api/app/core/queue.py:43-50 | a run within the lease with two active jobs under the empty deduplication id |
| JobQueueRuns.CrashingJobIsRetriedForever | apps/api/app/core/queue.py:84-104 | for every number there is a run within the lease that executes one job that often and records no attempt |
| JobQueueRuns.ReclaimedJobExceedsLimit | apps/api/app/core/queue.py:133-140 | a run within the lease, with no takeover, in which a reclaimed job is executed more often than its limit |
| Text.ParsePrint | packages/connectors/src/services/encryption.service.ts:188-210 | parsing a decimal numeral gives back every integer that was printed |
| Text.SplitJoin | packages/connectors/src/services/encryption.service.ts:187-205 | splitting undoes joining exactly when no part contains the separator |
| Base64.DecodeEncode | packages/connectors/src/services/encryption.service.ts:89-105 | decoding undoes encoding for every byte string, padding included |
| Base64.VectorsText | packages/connectors/src/services/encryption.service.ts:89-89 | the encoding gives the test vectors of RFC 4648, section 10 |
| Base64.EncodeIsColonFree | packages/connectors/src/services/encryption.service.ts:144-146 | encoded fields never contain the separator |
| Encryption.DataKeyFields | packages/connectors/src/services/encryption.service.ts:75-90 | a stored data key splits into initialisation vector, tag and ciphertext, in this order |
| Encryption.DataKeyRoundTrip | packages/connectors/src/services/encryption.service.ts:75-116 | a data key sealed under the master key comes back |
| Encryption.TokenFields | packages/connectors/src/services/encryption.service.ts:179-207 | the stored string has five fields, each reading back as what was written, exactly when the key id is colon-free |
| Encryption.TokenRoundTrip | packages/connectors/src/services/encryption.service.ts:179-218 | token, version and key id come back for every colon-free key id, and a format error for every other |
| Encryption.RotationsPreserveToken | packages/connectors/src/services/encryption.service.ts:228-240 | a chain of rotations keeps the plaintext under the last key exactly when every key id is colon-free |
| TokenStore.TokenService.FindActiveKey | packages/connectors/src/services/token.service.ts:269-272 | in any key table, the highest version among the tenant's active rows, or none exactly when there is none |
| TokenStore.UseDekMatchesExactly | packages/connectors/src/services/token.service.ts:249-307 | for any key table and cache, the key given out is that of the row it is labelled with exactly if the cache agrees with the latest active row; rows are only added |
| TokenStore.UseDekKeepsSound | packages/connectors/src/services/token.service.ts:249-307 | over a table and cache of this service's making a key is always given out, is the tenant's, and both stay so |
| TokenStore.SealedTokensOpen | packages/connectors/src/services/token.service.ts:72-134 | tokens sealed with a row's key and labelled with the row read back, for any row with a colon-free id |
| TokenStore.TokenService.GetOrCreateDek | packages/connectors/src/services/token.service.ts:249-307 | for any key table and cache: uses an unexpired cached key, else the latest active row's, else creates version 1; caches for five minutes; which error and the whole new state; the label is right exactly if the cache agrees |
| TokenStore.TokenService.StoreTokens | packages/connectors/src/services/token.service.ts:61-105 | for any key table: what is written or which error; it reads back if the cache agrees and the key id is colon-free, and always over tables of this service's making |
| TokenStore.TokenService.GetTokens | packages/connectors/src/services/token.service.ts:110-150 | what the row says under the key of its own version, with each way to fail |
| TokenStore.TokenService.GetDek | packages/connectors/src/services/token.service.ts:312-324 | the key of one version, or which error |
| TokenStoreRuns.CachesAgreeWithKeyTable | packages/connectors/src/services/token.service.ts:255-304 | in every run every cached key, in every process, is the decrypted active key of its tenant |
| TokenStoreRuns.StoredTokensReadBack | packages/connectors/src/services/token.service.ts:110-134 | a row read at one moment and opened with the key table of any later one gives the tokens stored last before the first |
| TokenStoreRuns.KeysNeverChange | packages/connectors/src/services/token.service.ts:274-287 | key rows are only ever added, never changed, whichever processes race |
| TokenStoreRuns.SecondCreatorLeavesNoTrace | packages/connectors/src/services/token.service.ts:274-295 | of two calls creating a tenant's first key the later is rejected and changes no key, cache or row |
| TokenStoreRuns.ForeignKeyVersionMislabelsTokens | packages/connectors/src/services/token.service.ts:256-266 | in every run, once a row of a later version comes from elsewhere, a process with a cached key stores tokens readable exactly if the row holds the same key |
| TokenStoreRuns.CachedKeyLosesTokens | packages/connectors/src/services/token.service.ts:256-266 | a run, a foreign key row, and a stored token row that then fails to authenticate |
| RefreshLock.WaitForRefresh | packages/connectors/src/services/token.service.ts:329-346 | polls at most fifty times within five seconds, never past tokens with over five minutes left, and ends early only on such tokens or an error |
| RefreshLock.WaitEndsOnce | packages/connectors/src/services/token.service.ts:329-346 | clock and answers determine how often is polled and how the wait ends |
| RefreshLock.RedisKey.SetNx | packages/connectors/src/services/token.service.ts:168-168 | sets the lock exactly when no live one exists |
| RefreshLock.TokenRefresher.RefreshHoldingLock | packages/connectors/src/services/token.service.ts:183-209 | refreshes and stores exactly if the tokens read have at most five minutes left and the provider answers; otherwise returns tokens with more, or which error |
| RefreshLock.TokenRefresher.RefreshTokensWithLock | packages/connectors/src/services/token.service.ts:155-222 | one call, whatever every other process does to tables, cache and lock between its steps and however the clock moves: what it returns or raises in each case, what it stores, and that it deletes the lock exactly if GET returned its own value |
| RefreshLockRuns.AtMostOneHolder | packages/connectors/src/services/token.service.ts:168-217 | while holders keep to thirty seconds, at most one call is in the critical section and the lock is its own |
| RefreshLockRuns.LockIsRemovedOnlyByItsHolder | packages/connectors/src/services/token.service.ts:211-217 | the unconditional DEL removes the deleting call's own lock, and nothing else removes a live one |
| RefreshLockRuns.ExclusionLostExactly | packages/connectors/src/services/token.service.ts:168-217 | a step takes the lock from its holder exactly if it is a SET that finds no live lock while a call is in the critical section |
| RefreshLockRuns.ExclusionHoldsExactly | packages/connectors/src/services/token.service.ts:168-217 | in every run, however slow the holders, each always owns the lock exactly if no step does that |
| RefreshLockRuns.SpendingLostExactly | packages/connectors/src/services/token.service.ts:183-201 | a step makes a token in some call's hands stale exactly if it stores a refresh while another call holds a token it has read |
| RefreshLockRuns.RefreshSpendsLatestToken | packages/connectors/src/services/token.service.ts:183-201 | each stored refresh spent the refresh token of the write it read, with no other refresh in between: the previous write's, if nothing else writes |
| RefreshLockRuns.NoTokenSpentTwice | packages/connectors/src/services/token.service.ts:183-201 | no two stored refreshes read the same write |
| RefreshLockRuns.RefreshCompletes | packages/connectors/src/services/token.service.ts:168-217 | a run in which one call refreshes, stores and releases, for any new tokens |
| RefreshLockRuns.OverstayingSpendsTokenTwice | packages/connectors/src/services/token.service.ts:168-201 | a run in which a holder that oversleeps and a second call send the same refresh token |
| RefreshLockRuns.SlowDeleteAdmitsTwoHolders | packages/connectors/src/services/token.service.ts:211-217 | a run in which a slow DEL removes another call's lock and two timely holders coexist |
| RateLimiter.AtMostLimitPerWindow | apps/api/app/middleware/rate_limiter.py:18-45 | every closed sixty-second interval of every run holds at most `limit` admitted requests of a visitor |
| RateLimiter.RejectedIffWindowFull | apps/api/app/middleware/rate_limiter.py:33-41 | a request is refused exactly when `limit` requests of its visitor were admitted in the last sixty seconds |
| RateLimiter.VisitorsAreIndependent | apps/api/app/middleware/rate_limiter.py:24-27 | a visitor's deque and admissions are those of its own requests alone |
| RateLimiter.RetryAfterFallsShort | apps/api/app/middleware/rate_limiter.py:33-41 | a refused visitor is let in exactly when the oldest counted request has left the window: never after `Retry-After` seconds, always a second later |
| RateLimiter.RateLimiterMiddleware.Dispatch | apps/api/app/middleware/rate_limiter.py:18-45 | the pruning loop and admission answer as the log of all requests demands, and touch no other visitor |
| AutoChat.Sweep | apps/api/app/workers/auto_chat_worker.py:323-351 | the linear sweep gives the pairwise report, or raises exactly when a missing end follows a known one |
| AutoChat.ReportIsUnique | apps/api/app/workers/auto_chat_worker.py:323-351 | the pairwise definition determines the list: which meetings, which kind, and the first of the latest-ending earlier meetings |
| AutoChat.OverlapIsSharedMoment | apps/api/app/workers/auto_chat_worker.py:331-338 | on meetings sorted by start, a meeting is reported as overlapping exactly when it shares a moment with an earlier one |
| AutoChat.FingerprintForgetsOrder | apps/api/app/workers/auto_chat_worker.py:359-359 | the fingerprint is the same for any order of the same conflicts |
| AutoChat.FingerprintForgetsKind | apps/api/app/workers/auto_chat_worker.py:359-359 | reports with the same conflicts up to order and kind have the same fingerprint, whatever the titles |
| AutoChat.FingerprintsAgreeExactly | apps/api/app/workers/auto_chat_worker.py:359-363 | with titles present and free of separators, two reports share a fingerprint exactly if they list the same conflicts, each as often, up to order and kind |
| AutoChat.FingerprintsShowLines | apps/api/app/workers/auto_chat_worker.py:359-359 | where no line holds a bar, fingerprints agree exactly if the lines do, each as often |
| AutoChat.TitlesWithSeparatorsCollide | apps/api/app/workers/auto_chat_worker.py:359-359 | a colon in a title, and a missing title, give different conflicts one fingerprint |
| AutoChat.WorkerState.CheckMeetingPrep | apps/api/app/workers/auto_chat_worker.py:194-249 | alerts every upcoming meeting that goes through and is not among the last fifty alerted, and no other; records each; two alerts for one meeting are over fifty apart |
| AutoChat.WorkerState.CheckAfternoonDigest | apps/api/app/workers/auto_chat_worker.py:251-303 | sends exactly when the owner is active, the hour is fifteen and the last digest was on another day, for any clock |
| AutoChat.OnePerDay | apps/api/app/workers/auto_chat_worker.py:277-282 | for every history of digests, each is on a later day than all before exactly if none is on an earlier day than the one before it; so always with a clock that never goes back |
| AutoChat.DigestRepeatsDay | apps/api/app/workers/auto_chat_worker.py:251-303 | three calls of the check, with a clock that goes back a day in between, send the digest of one day twice |
| AutoChat.WorkerState.CheckCalendarConflicts | apps/api/app/workers/auto_chat_worker.py:305-390 | sends for a nonempty report, never the same fingerprint twice in a row, and stays silent only for a stated reason |
| Sorting.PermutationsSortAlike | apps/api/app/services/cache.py:209-211 | sorting by a total order forgets the order of its input |
| Approval.ApprovalService.CreateApproval | packages/connectors/src/services/approval.service.ts:109-148 | a pending row that expires after the given minutes, or the default ones |
| Approval.ApprovalService.Approve | packages/connectors/src/services/approval.service.ts:153-206 | grants exactly a pending, unexpired approval of the tenant; a late grant marks it expired |
| Approval.ApprovalService.Reject | packages/connectors/src/services/approval.service.ts:211-252 | rejects exactly a pending approval of the tenant, expired or not |
| Approval.ApprovalService.ValidateApproval | packages/connectors/src/services/approval.service.ts:257-318 | valid exactly for the same tenant, user and action, granted and not past its expiry; too late exactly if otherwise granted to the same, and then marks it expired; nothing else changes |
| Approval.ApprovalService.MarkExecuted | packages/connectors/src/services/approval.service.ts:323-328 | marks any existing row, whatever its status |
| Approval.ApprovalService.ListPending | packages/connectors/src/services/approval.service.ts:333-353 | exactly the user's approvals that can still be granted |
| Approval.ApprovalService.ExpireStale | packages/connectors/src/services/approval.service.ts:358-372 | no pending approval is past its expiry afterwards, nothing else changed, and how many there were |
| Approval.HandleGatedAction | packages/connectors/src/routes/index.ts:672-762 | an uninterrupted request: completes exactly with an approval granted to the same tenant and user, unexpired and for this action, and a willing provider; which answer and which row change in every other case |
| ApprovalRuns.EveryExecutionIsAuthorised | packages/connectors/src/routes/index.ts:865-928 | in every interleaving each performed action has an approval of its tenant, user and action, granted and validated no later than it expires |
| ApprovalRuns.ActionOnAnotherTarget | packages/connectors/src/routes/index.ts:723-747 | for every target there is a run that acts on it with an approval requested for another |
| ApprovalRuns.RankNeverFalls | packages/connectors/src/services/approval.service.ts:153-372 | in every interleaving no status falls back to pending or approved |
| ApprovalRuns.AtMostTwoStatusChanges | packages/connectors/src/services/approval.service.ts:153-372 | without a clash on it an approval changes status at most twice, each time to a higher rank |
| ApprovalRuns.AtMostThreeStatusChanges | packages/connectors/src/services/approval.service.ts:153-372 | in every run an approval changes status at most three times |
| ApprovalRuns.UsedApprovalStaysUsed | packages/connectors/src/services/approval.service.ts:269-283 | in every interleaving an EXECUTED approval stays so, and no later request on it is valid |
| ApprovalRuns.ExclusionLostExactly | packages/connectors/src/routes/index.ts:723-747 | a step makes an approval shared, or takes it from its handler, exactly if it validates it, in time or too late, while a handler works on it |
| ApprovalRuns.ExclusionHoldsExactly | packages/connectors/src/routes/index.ts:723-747 | in every run an approval is kept to one handler at a time exactly if no step does that to it |
| ApprovalRuns.ExecutionsAreCounted | packages/connectors/src/routes/index.ts:723-747 | in every run, overlapping handlers included, the executions on an approval are the marked ones, the ones lost before the mark and the ones in hand; it is EXECUTED exactly if one was marked |
| ApprovalRuns.AtMostOneExecutionExactly | packages/connectors/src/routes/index.ts:723-747 | an approval has authorised at most one execution exactly if marked, lost and in hand make at most one |
| ApprovalRuns.OneMarkedExecutionPerApproval | packages/connectors/src/routes/index.ts:723-747 | without a clash on it an approval is marked exactly once if EXECUTED and never otherwise, at most one execution is in hand, and executions exceed the lost ones by at most one |
| ApprovalRuns.InterleavedHandlersExecuteTwice | packages/connectors/src/routes/index.ts:723-747 | a run in which two overlapping handlers act on one approval |
| ApprovalRuns.LostMarkAllowsSecondExecution | packages/connectors/src/routes/index.ts:743-747 | a run in which a handler dies before marking and the approval is used again |
| StringRedaction.RedactEmailIsIdempotent | packages/connectors/src/utils/redaction.ts:76-100 | redacting twice is redacting once exactly for strings that are empty or contain an `@` |
| StringRedaction.RedactedEmailShowsExactly | packages/connectors/src/utils/redaction.ts:76-100 | two strings redact alike exactly when the shown parts agree: ends or length of the local part, start or length of the domain name, last label |
| StringRedaction.TruncationShowsExactly | packages/connectors/src/utils/redaction.ts:105-113 | two strings truncate alike exactly when their lengths and, beyond twenty characters, their first twenty agree |
| StringRedaction.LongAddressText | packages/connectors/src/utils/redaction.ts:76-100 | the text of a redacted address with parts of three characters and more |
| StringRedaction.ShortAddressText | packages/connectors/src/utils/redaction.ts:76-100 | shorter parts become stars, and a domain without a dot three of them |
| Redaction.Redact | packages/connectors/src/utils/redaction.ts:118-192 | the recursive program with its loops computes the specified tree and ends on every graph; what becomes of each kind of value |
| Redaction.FillResult | packages/connectors/src/utils/redaction.ts:147-191 | the loop over the entries fills the result with one field per key, in order, and what stands under redacted, truncated and address keys |
| Redaction.RedactionHidesSecrets | packages/connectors/src/utils/redaction.ts:118-192 | graphs that differ only beneath redacted keys and in the hidden parts of truncated strings and addresses have the same redaction |
| Redaction.RedactionShowsExactly | packages/connectors/src/utils/redaction.ts:118-192 | two unambiguous graphs have the same redaction exactly if they are equal but for redacted keys, the rest of truncated strings and the hidden part of addresses |
| Redaction.HarmlessIsCopied | packages/connectors/src/utils/redaction.ts:126-144 | a value at most ten deep without listed keys, addresses or participants comes out as the same tree, every scalar unchanged |
| Redaction.SecretFieldsDoNotShow | packages/connectors/src/utils/redaction.ts:153-157 | overwriting a field under a redacted key, anywhere in the graph and with anything, changes no redaction |
| Redaction.EverySpellingListedExactly | packages/connectors/src/utils/redaction.ts:150-166 | every capitalisation of a name is recognised exactly if the list holds it in lower case |
| Redaction.LowerCaseFieldsInEverySpelling | packages/connectors/src/utils/redaction.ts:13-66 | the names that are recognised in every spelling |
| Redaction.MixedCaseSecretsInOneSpelling | packages/connectors/src/utils/redaction.ts:15-32 | the five secrets listed in mixed case are recognised in exactly the spelling listed |
| Redaction.NestingIsBounded | packages/connectors/src/utils/redaction.ts:118-120 | output nesting is bounded for every graph and depth |
| Cache.RedisCache.GetJson | apps/api/app/services/cache.py:67-88 | reads the live Redis entry, else the dictionary, whether or not they agree; when they do, the one map they stand for |
| Cache.RedisCache.SetJson | apps/api/app/services/cache.py:90-106 | writes both tiers; agreeing tiers stay so exactly when the lifetime is positive or Redis held nothing different |
| Cache.RefusedLifetimeShowsOldValue | apps/api/app/services/cache.py:95-106 | calls that set a value with a lifetime of zero and then read the one before it |
| Cache.RedisCache.Delete | apps/api/app/services/cache.py:108-115 | removes one key from both tiers |
| Cache.RedisCache.DeletePattern | apps/api/app/services/cache.py:117-143 | given a complete scan, removes from each tier what its glob dialect matches and counts each; the tiers agree afterwards exactly if Redis matches every live key that `fnmatch` does |
| Cache.RedisCache.InvalidateCache | apps/api/app/services/cache.py:257-277 | with or without a workspace, exactly which stored responses are removed, for prefix and id free of glob characters |
| Cache.RedisCache.Tick | apps/api/app/services/cache.py:105-106 | expiry in Redis does not change what the cache means |
| CacheKeys.InvalidationCovers | apps/api/app/services/cache.py:257-277 | which keys the pattern matches, for any workspace id free of glob characters and for none: without one exactly those of the prefix |
| CacheKeys.InvalidationIsExact | apps/api/app/services/cache.py:196-215 | for a colon-free id the pattern matches a response exactly if it has the prefix and its workspace is that one or continues it after a colon |
| CacheKeys.KeyForgetsParameterOrder | apps/api/app/services/cache.py:207-212 | queries with the same last value of each name have the same key |
| CacheKeys.SortedItemsForgetExactly | apps/api/app/services/cache.py:210-210 | the sorted items of two queries are equal exactly if each name has the same last value |
| CacheKeys.PermutedQueriesAgree | apps/api/app/services/cache.py:210-210 | permutations of a query without repeated names agree on every value |
| CacheKeys.RepeatedNameKeepsLastValue | apps/api/app/services/cache.py:210-212 | of a repeated name the last value is keyed, so swapping two different values changes the string |
| CacheKeys.ParamStringDeterminesParams | apps/api/app/services/cache.py:211-212 | with names and values free of separators, the string is the same exactly if the parameters are |
| CacheKeys.SeparatorsConfuseQueries | apps/api/app/services/cache.py:211-212 | a value with separators gives the string of a different query |
| CacheKeys.KeysAgreeExactly | apps/api/app/services/cache.py:196-215 | two responses share a key exactly if prefix and workspace are the same, the digests of their paths agree in eight characters and, where the query counts, both queries are empty or their digests agree in twelve |
| CacheKeys.QueriesShareKeyExactly | apps/api/app/services/cache.py:204-215 | two queries to one endpoint share a key exactly if they share the digest, or both are empty, for any digest function |
| CacheKeys.FullKeysAgreeExactly | apps/api/app/services/cache.py:64-65 | keys of different namespaces differ |
| CacheKeys.ColonInWorkspaceOverreaches | apps/api/app/services/cache.py:273-277 | an instance: invalidating workspace 1 also removes every response of workspace 1:2 |
| Discovery.MailDb.Discover | apps/api/app/workers/local_sync.py:56-104 | one undisturbed pass: every message has its row, new rows have one call each, old rows stay |
| Discovery.OneRowPerMessage | apps/api/app/workers/local_sync.py:56-93 | at most one row per workspace and message in every interleaving |
| Discovery.OneCallPerRow | apps/api/app/workers/local_sync.py:85-104 | an inserted row has at most one triage call, and exactly one once its run has moved on |
| Discovery.ExactlyOnce | apps/api/app/workers/local_sync.py:56-104 | when all discoveries are done, every fetched message has one row with one triage call |
| Discovery.TriageSkippedExactly | apps/api/app/workers/local_sync.py:96-104 | in every run a call makes no job exactly when another row of the same message id has an active one, of another workspace while both rows exist |
| Discovery.SharedMessageIdIsTriagedOnce | apps/api/app/workers/local_sync.py:103-103 | a run in which two workspaces receive one message id and only the first gets a triage job |
| Slug.SlugIsJoinedWords | apps/api/app/routers/auth.py:29-32 | a slug is the maximal runs of letters and digits of the lower-cased name joined by hyphens, or the default |
| Slug.SlugifyNormalises | apps/api/app/routers/auth.py:29-32 | the result is a slug, and the slugs are exactly the strings left unchanged; so idempotence |
| Slug.UniqueSlug | apps/api/app/routers/auth.py:35-41 | ends within one probe more than there are slugs, at the first candidate that is free |
| Slug.CandidatesDiffer | apps/api/app/routers/auth.py:36-40 | no two candidates are equal |
| Slug.CandidatesAreSlugs | apps/api/app/routers/auth.py:35-41 | every candidate of a slug is a slug |

## Left out

- Database faults: rollbacks, the swallowed exceptions of `enqueue` and `_acquire_job`, and a failing `_mark_done` that falls into the failure path.
- Job payloads, types, `last_error`, `traceback_data` and `updated_at`; `scheduler_loop`, whose enqueues are default enqueues; the polling sleeps.
- JobQueue.AdvancedSQLiteQueue.AcquireJob: does not fix which of several jobs with the same `run_at` is taken, because the query does not.
- AES-256-GCM itself, key-length and IV-length errors when a cipher is created, UTF-8 coding of tokens, and lone surrogates.
- `scope` and `tokenType` of tokens; `revokeTokens`, which appears among the external writes of the refresh lock; the interleaved refreshes are of one account.
- The rate limiter's clock is a real number, not a float. `apps/api/app/main.py:201` says the middleware is no longer installed.
- The calendar query (window, filters, limit of 200), the ISO form of times (any text that is different for different times and holds no bar), `processing_emails`, and the urgent-mail, follow-up and VIP checks.
- Parsing of the stored digest timestamp: a malformed one reads as none in the program and does not occur here.
- Risk levels, `sanitizePayload`, the order of `listPending`, audit records, and the draft lookup before an approval is requested.
- Approval.HandleGatedAction: one contract for both handlers, which differ in provider call and audit only.
- Redaction.Redact: keys are lower-cased by ASCII rules, strings are counted in characters rather than UTF-16 units, and `__proto__` keys, getters and inherited properties do not occur.
- `redactError` and `containsPII`.
- Redis faults, the JSON codec (values are their serialised strings), what brackets and backslashes mean in each glob dialect, and the endpoint wrapper around the key of `cached_response`.
- The query parser: parameters are given as the list of names and values it yields; the dictionary made of them keeps the last value, as the framework's multi-dictionary does, which is not part of this repository.
- Status events, later sync stages and failing enqueues of discovery; deletions occur between the steps of OneRowPerMessage and OneCallPerRow, not of ExactlyOnce.
- Slug.UniqueSlug: looks at a fixed set of slugs; the race between two registrations is not modelled.
- The development stubs: the in-memory Redis of the connectors package and the manual completion route of the job router.
