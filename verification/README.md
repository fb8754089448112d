# TalentTrust backend: verified models

A Dafny 4.11 model of the stateful algorithms inside the TalentTrust backend, with
proofs of what they guarantee over whole runs. `dafny verify dfyconfig.toml` checks
everything. Nothing here executes the backend.

| module (file) | what it models |
|---|---|
| `Breaker` (CircuitBreaker.dfy) | the circuit breaker, with every call split at its `await` into an admission and a completion that interleave freely |
| `Lockout` (AccountLockout.dfy) | per-account lockout with decay, garbage collection and audit events |
| `TokenBucket` (TokenBucket.dfy) | the in-process token bucket and the Redis script |
| `Limiter` (Limiter.dfy) | waiter queue and drain timer over the synchronous store |
| `AsyncLimiter` (AsyncLimiter.dfy) | the same limiter over a store whose replies arrive later, in any order |
| `AuditChain`, `AuditPaging` | the hash-chained audit log, its two verifiers and its two cursors |
| `CanonicalJson`, `JsonReader`, `CsvExport` | the canonical JSON printer and an RFC 8259 reader; the CSV export and an RFC 4180 reader |
| `KeyPages` | keyset pagination of API keys |
| `Migrations` | schema migrations through failures, restarts and releases |
| `Indexer` | replay-safe event ingestion |
| `Sorting`, `CodeUnits`, `Decimals`, `Wrappers` | a stable sort, UTF-16 strings, decimal notation, small datatypes |

Conventions. A component that updates fields is a class whose methods are proved equal
to a step function on a value datatype (`State`, `Lane`, ...); the theorems are about runs
of that step function. `At(cfg, es, k)` is the state after the first `k` events of a run,
and `Legal` or `Clocked` says what the environment may do. Clock readings, random ids,
hashes, the event validator's verdicts and failing transactions are parameters.

Where the code does not do what its comments say, the code is modelled and the exact
condition is proved:

- "Only one probe at a time" (`CircuitBreaker.ts:117`): any completion clears
  `probeInFlight`, so the promise holds exactly when no call was running as the breaker
  opened (`Breaker.SingleProbeExactly`); every configuration has a history that breaks it
  (`Breaker.PromiseBroken`).
- A lockout's "deadline is fixed at trigger time" (`accountLockout.ts:31-32`): true, and
  sweeps make no difference to attempts, exactly when
  `lockoutDurationMs <= decayWindowMs + 1`, which the defaults satisfy
  (`Lockout.LocksHoldExactly`, `Lockout.SweepsUnobservableExactly`).
- A sweep collects "records that have outlived both their lockout and the decay window"
  (`accountLockout.ts:406-412`): it collects on either, so this is true exactly when
  `lockoutDurationMs == decayWindowMs + 1` (`Lockout.SweepsAsDocumentedExactly`).
- A login "guarantees one release audit per streak" (`accountLockout.ts:356-359`): it reports
  the release of the latest lock exactly when no sweep and no attempt came between, once
  the lockout or the decay window had run out (`Lockout.ReleaseExactly`). Every
  configuration has a lock whose release is not reported (`Lockout.ReleaseLost`).
- "Detects any tampering, deletion, or reordering" (`store.ts:238`): what verifies is
  exactly a prefix of the log with any contents sealed on top under hashes that do not
  occur in the log (`AuditChain.TamperingExactly`). So cutting the end off, adding entries
  and resealing everything from some entry on go unnoticed (`AuditChain.ResealingUndetected`);
  rearranging existing entries or editing one in place does not, except at the end
  (`AuditChain.OnlyPrefixesVerify`, `AuditChain.EditDetectedExactly`).
- The in-memory cursor applies a position in the whole log to the filtered list; a page is
  right exactly when every entry up to the cursor matches or none after it does
  (`AuditPaging.MemoryPageExactly`). With a filter a client can be told that there is no
  more while matching entries remain (`AuditPaging.FilteredMemoryWalkLoses`).
- Editing an applied migration "fails fast" (`migrations.ts:429-431`): only through the
  source the checksum is taken from. The row of a listed migration is accepted exactly when
  it has no checksum, or was taken from the release's source, or from its body where it
  declares a source (`Migrations.EditRefusedExactly`). So a body edited under an unchanged
  `checksumSource`, which every shipped migration has, is not noticed
  (`Migrations.EditUnderSourceUnnoticed`).
- The configuration loader says it rejects values that "would make every delivery block
  forever" but accepts capacities below one token, which are exactly those that do
  (`Limiter.StarvesExactly`).
- The indexer's cursor is overwritten by every batch with an accepted event. It moves
  backwards exactly when all accepted events of the batch lie before it
  (`Indexer.CursorRegressesExactly`, over runs `Indexer.CursorDropsExactly`; an instance is
  `Indexer.CursorDrops`).
- The dedupe key joins its parts with colons that may also occur inside them. A key belongs
  to one event exactly when `contractId:eventId` has no further colon with trimmed, non-empty
  text on both sides (`Indexer.KeyIdentifiesExactly`); otherwise a different event is dropped
  as a duplicate (`Indexer.CollidingPair`, `Indexer.CollidingEventLost`).

## Model

| member | source | states |
|---|---|---|
| `Breaker.CircuitBreaker.BeginExecute` | src/circuit-breaker/CircuitBreaker.ts:110-123 | the admission half of `execute`: its verdict and the whole new state |
| `Breaker.CircuitBreaker.EndExecuteResolved` | src/circuit-breaker/CircuitBreaker.ts:125-134 | the completion half after a success: counters, closing, probe flag cleared |
| `Breaker.CircuitBreaker.EndExecuteRejected` | src/circuit-breaker/CircuitBreaker.ts:129-134 | the completion half after a failure |
| `Breaker.CircuitBreaker.TransitionIfNeeded` | src/circuit-breaker/CircuitBreaker.ts:178-186 | OPEN becomes HALF_OPEN once the timeout has passed, else nothing changes |
| `Breaker.CircuitBreaker.OnSuccess` | src/circuit-breaker/CircuitBreaker.ts:189-198 | the state after a success |
| `Breaker.CircuitBreaker.OnFailure` | src/circuit-breaker/CircuitBreaker.ts:201-214 | the state after a failure |
| `Breaker.CircuitBreaker.GetState` | src/circuit-breaker/CircuitBreaker.ts:140-143 | reports the phase after any due transition |
| `Breaker.CircuitBreaker.Reset` | src/circuit-breaker/CircuitBreaker.ts:164-170 | back to the initial state |
| `Breaker.InvariantHolds` | src/circuit-breaker/CircuitBreaker.ts:178-230 | in every reachable state the counters equal quantities read off the history, OPEN knows its failure time, a set probe flag means a probe is running |
| `Breaker.TripsExactlyOnThreshold` | src/circuit-breaker/CircuitBreaker.ts:201-214 | over all interleavings, CLOSED is left exactly on the failure completing a streak of `failureThreshold` (at least one) since the last success or reset |
| `Breaker.AdmissionRule` | src/circuit-breaker/CircuitBreaker.ts:110-123 | OPEN admits if and only if `timeout` has passed since the latest failure of the history, so OPEN is never permanent; HALF_OPEN rejects only while a probe runs |
| `Breaker.HalfOpenSince` | src/circuit-breaker/CircuitBreaker.ts:189-198 | HALF_OPEN means: since leaving OPEN no failure, and fewer successes than `successThreshold`; a caller is turned away exactly while a call has entered and none has completed since |
| `Breaker.HalfOpenLeftExactly` | src/circuit-breaker/CircuitBreaker.ts:189-220 | without a reset HALF_OPEN goes to CLOSED exactly on the success completing `successThreshold` (at least one) since it was entered, and to OPEN exactly on a failure |
| `Breaker.OpenLeftExactly` | src/circuit-breaker/CircuitBreaker.ts:178-186 | without a reset OPEN is left exactly by a caller or poll coming `timeout` after the latest failure, and only to HALF_OPEN |
| `Breaker.CountersExactly` | src/circuit-breaker/CircuitBreaker.ts:145-161 | the counters of the statistics in every reachable state, read off the history |
| `Breaker.ClosesOnlyAfterSuccesses` | src/circuit-breaker/CircuitBreaker.ts:189-220 | without a reset it closes only after exactly `successThreshold` successes and no failure since it became HALF_OPEN |
| `Breaker.InFlightBound` | src/circuit-breaker/CircuitBreaker.ts:110-135 | from leaving CLOSED until closing again, calls in flight never exceed those running when it opened plus one |
| `Breaker.SingleProbeExactly` | src/circuit-breaker/CircuitBreaker.ts:117-134 | at most one probe at a time in every continuation, if and only if no call was in flight when it opened |
| `Breaker.TwoProbes` | src/circuit-breaker/CircuitBreaker.ts:117-134 | the interleaving that runs two probes at once |
| `Breaker.PromiseBroken` | src/circuit-breaker/CircuitBreaker.ts:117-134 | for every configuration, a legal history that opens the breaker with one call in flight and so breaks the single-probe promise |
| `Lockout.AccountLockoutTracker.Assess` | src/auth/accountLockout.ts:243-285 | the live assessment, zero for a disabled tracker, an unusable identity or an unknown account |
| `Lockout.AccountLockoutTracker.RecordFailure` | src/auth/accountLockout.ts:297-350 | the new record, every other account unchanged, and the report |
| `Lockout.AccountLockoutTracker.RecordSuccess` | src/auth/accountLockout.ts:361-387 | the record is deleted and a previous lock is reported |
| `Lockout.AccountLockoutTracker.Sweep` | src/auth/accountLockout.ts:413-426 | removes exactly the expired or decayed records and counts them |
| `Lockout.AccountLockoutTracker.ComputeDelay` | src/auth/accountLockout.ts:399-404 | the capped exponential delay |
| `Lockout.StreakInvariant` | src/auth/accountLockout.ts:297-350 | after any run a record is one streak of at most `maxFailures` failures, locked for `lockoutDurationMs` from its last failure exactly when full |
| `Lockout.DelayIsWait` | src/auth/accountLockout.ts:399-404 | the delay starts at the base delay and is multiplied with each further failure, never beyond the maximum |
| `Lockout.StreakSince` | src/auth/accountLockout.ts:297-350 | a record holds exactly the failures counted since the first of its streak, with no login between, and a login reports that number |
| `Lockout.StreakReports` | src/auth/accountLockout.ts:328-350 | the n-th counted failure of a streak reports n and the n-th delay, or the maximum and the trigger when n is `maxFailures` |
| `Lockout.AssessRepeatsReport` | src/auth/accountLockout.ts:243-285 | until the record runs out, another failure counts or a login succeeds, `assess` shows the count, delay and lock the failure reported |
| `Lockout.AttackRate` | src/auth/accountLockout.ts:297-350 | in any window of length T without a login, at most `maxFailures * (T / pause + 1)` failures are counted, whatever sweeps occur; the pause is the lockout duration when that is within the decay window |
| `Lockout.PotentialDrops` | src/auth/accountLockout.ts:470-493 | every operation but a login uses up at least as much of the remaining attack budget as it counts |
| `Lockout.LocksHoldExactly` | src/auth/accountLockout.ts:470-493 | a triggered lock survives all attempts and sweeps until its deadline, in every run, if and only if `lockoutDurationMs <= decayWindowMs + 1` |
| `Lockout.LockedOut` | src/auth/accountLockout.ts:317-326 | while locked no attempt counts, extends the lock or triggers again, and `assess` shows the remaining time |
| `Lockout.AssessForetells` | src/auth/accountLockout.ts:243-285 | `assess` tells whether the next failure will count, its number, and whether it will trigger |
| `Lockout.SweepsUnobservableExactly` | src/auth/accountLockout.ts:413-426 | removing all sweeps from a run changes no result but a later release report, in every run, if and only if `lockoutDurationMs <= decayWindowMs + 1` |
| `Lockout.SweepSimulation` | src/auth/accountLockout.ts:413-426 | the swept account equals the unswept one or lacks only a dead record |
| `Lockout.SweepsAsDocumentedExactly` | src/auth/accountLockout.ts:406-426 | in every run a sweep removes exactly the records that have outlived both lockout and decay window, if and only if `lockoutDurationMs == decayWindowMs + 1` |
| `Lockout.ReleaseHasTrigger` | src/auth/accountLockout.ts:361-387 | every release has an earlier trigger with no login in between |
| `Lockout.ReleaseExactly` | src/auth/accountLockout.ts:352-387 | after the latest trigger a login reports its release if and only if no sweep or attempt came in between once the lockout or the decay window had run out |
| `Lockout.ReleaseLost` | src/auth/accountLockout.ts:352-387 | for every configuration, a run with a lock whose release is not reported |
| `Lockout.TriggersApart` | src/auth/accountLockout.ts:334-342 | two triggers without a login between them are a pause apart and separated by `maxFailures` counted failures |
| `Lockout.AccountsIndependent` | src/auth/accountLockout.ts:196-196 | after any run of the tracker an account's record depends only on its own operations and the sweeps |
| `TokenBucket.InMemoryBucketStore.ConsumeToken` | src/rateLimit.ts:116-138 | refill and consume for one provider, the others untouched |
| `TokenBucket.ConsumeConserves` | src/rateLimit.ts:116-138 | one request keeps tokens within 0 and capacity, advances the refill time to the maximum, and creates no tokens beyond what accrued |
| `TokenBucket.ConsumeTakes` | src/rateLimit.ts:116-138 | a request is granted if and only if it finds a whole token, and leaves exactly what it did not take |
| `TokenBucket.LevelRises` | src/rateLimit.ts:122-128 | without requests the tokens rise at the refill rate up to the capacity |
| `TokenBucket.BucketInvariant` | src/rateLimit.ts:116-138 | after any clock readings tokens are in range and the refill time is the highest reading |
| `TokenBucket.Throughput` | src/rateLimit.ts:116-138 | between any two moments of any run, grants are at most `capacity + refillRatePerSec * elapsedMs / 1000`, elapsed time taken on the highest reading |
| `TokenBucket.IdleBucketIsFull` | src/rateLimit.ts:179-181 | a bucket idle for half the time to live is full again |
| `TokenBucket.TtlExactly` | src/rateLimit.ts:179-181 | the time to live is the least whole number of seconds that is at least a minute and twice the time an empty bucket takes to fill |
| `TokenBucket.LuaRefinesExactly` | src/rateLimit.ts:150-184 | for any readings of the callers' and the server's clocks, backward ones included, and any deletion of the key, the script gives the same replies and holds the same bucket as the in-process store if and only if the bucket was full again by the caller's clock whenever the key was gone |
| `TokenBucket.LuaRefines` | src/rateLimit.ts:150-184 | it does so whenever a request that finds the key gone comes at least half a time to live after the highest earlier reading, in particular as long as no key is lost |
| `TokenBucket.OneClockIsClose` | src/rateLimit.ts:179-181 | one clock that never runs backwards, with keys deleted only on expiry, meets that condition |
| `TokenBucket.StoppedClockRefills` | src/rateLimit.ts:163-166 | a caller whose clock stands still while the key expires is given tokens the in-process store would not give |
| `Limiter.TokenBucketLimiter.AcquireToken` | src/rateLimit.ts:368-426 | resolve, queue or reject, with the provider's whole new state and all others unchanged |
| `Limiter.TokenBucketLimiter.ScheduleDrain` | src/rateLimit.ts:460-469 | one timer at a time, due after the drain delay |
| `Limiter.TokenBucketLimiter.TimerFires` | src/rateLimit.ts:463-466 | the timer callback: waiters released, state, new timer |
| `Limiter.TokenBucketLimiter.Drain` | src/rateLimit.ts:471-506 | drains the queue and reschedules for whoever is left |
| `Limiter.DrainQueue` | src/rateLimit.ts:475-501 | the loop releases waiters from the front for as long as tokens are granted |
| `Limiter.InvariantHolds` | src/rateLimit.ts:368-506 | in every legal run a timer is pending exactly when someone waits, is due exactly a drain delay after the last refill, and the queue is within its bound |
| `Limiter.OutcomeExactly` | src/rateLimit.ts:368-426 | a caller is rejected if and only if `maxQueueDepth` wait, resolved if and only if nobody waits and a token is there, and otherwise waits last |
| `Limiter.StepTakes` | src/rateLimit.ts:368-506 | every event takes from the bucket exactly as many tokens as it resolves callers and releases waiters |
| `Limiter.ServedWithinRate` | src/rateLimit.ts:368-506 | in any legal run, callers resolved plus waiters released between two events are at most `capacity` plus what accrues in between |
| `Limiter.FireReleasesExactly` | src/rateLimit.ts:471-506 | a firing timer releases as many waiters as there are whole tokens |
| `Limiter.DelayExactly` | src/rateLimit.ts:460-462 | the drain delay is the least whole number of milliseconds, at least one, in which a token accrues |
| `Limiter.FiringReleases` | src/rateLimit.ts:460-506 | with a capacity of at least one token every timer that fires releases somebody |
| `Limiter.Fifo` | src/rateLimit.ts:471-506 | waiters leave in exactly the order they joined, none lost |
| `Limiter.KthWaiterByKthDrain` | src/rateLimit.ts:471-506 | the k-th waiter in line is released by the k-th drain, whatever arrives meanwhile |
| `Limiter.StarvesExactly` | src/config/rateLimit.ts:359-364 | no legal run ever resolves or releases anybody if and only if the capacity is below one token |
| `AsyncLimiter.TokenBucketLimiter.AcquireToken` | src/rateLimit.ts:383-426 | the promise path: queue the waiter and ask the store, or queue and schedule, or reject, with the provider's whole new state and all others unchanged |
| `AsyncLimiter.TokenBucketLimiter.OnAcquireReply` | src/rateLimit.ts:392-407 | the reply to an acquisition: waiter removed and resolved, or a drain scheduled |
| `AsyncLimiter.TokenBucketLimiter.OnTimer` | src/rateLimit.ts:463-482 | the timer asks the store once if anyone waits |
| `AsyncLimiter.TokenBucketLimiter.OnDrainReply` | src/rateLimit.ts:482-494 | the reply to a drain: head resolved, drain rescheduled while anyone waits |
| `AsyncLimiter.RemoveFirst` | src/rateLimit.ts:395-396 | removes the first occurrence of a waiter |
| `AsyncLimiter.GrantsInArrivalOrder` | src/rateLimit.ts:383-426 | under every interleaving of replies, promises resolve in arrival order, exactly as many as there were tokens that came for somebody; the rest are queued, never more than `maxQueueDepth` |
| `AsyncLimiter.TrueReplyGrants` | src/rateLimit.ts:392-407 | in every run a reply of true that comes for somebody resolves the head of the queue, which for an acquisition is its caller, and nothing else resolves anybody |
| `AsyncLimiter.RefusedExactly` | src/rateLimit.ts:410-426 | an arrival is refused, changing nothing, if and only if `maxQueueDepth` (at least one) wait |
| `AsyncLimiter.RequestsCounted` | src/rateLimit.ts:383-390 | unanswered store requests are those made, one per caller who found nobody waiting and one per firing that found somebody, less those answered |
| `AsyncLimiter.TimerExactly` | src/rateLimit.ts:460-506 | exactly what sets and clears the drain timer |
| `AsyncLimiter.NobodyStranded` | src/rateLimit.ts:471-506 | a non-empty queue always has a pending timer or an unanswered store call |
| `AuditChain.AuditStore.Append` | src/audit/store.ts:65-99 | appends the sealed entry, or fails unchanged on re-entrancy |
| `AuditChain.AuditStore.VerifyIntegrity` | src/audit/store.ts:245-282 | valid if and only if every entry is sound; otherwise the first broken index and its id |
| `AuditChain.SqliteAuditRepository.Append` | src/audit/sqliteRepository.ts:45-99 | one transaction: appends the sealed row with the next key, or fails unchanged exactly on a repeated id |
| `AuditChain.SqliteAuditRepository.VerifyIntegrity` | src/audit/sqliteRepository.ts:213-257 | the same diagnosis, carrying the previous hash |
| `AuditChain.VerifiersAgree` | src/audit/sqliteRepository.ts:213-257 | a diagnosis is determined by the log, so both verifiers report the same |
| `AuditChain.AppendVerifies` | src/audit/store.ts:65-99 | appending keeps a log verifiable and cannot repair one |
| `AuditChain.HashesDistinct` | src/audit/store.ts:30-47 | all hashes of a verifying log are distinct |
| `AuditChain.HashFixesHistory` | src/audit/store.ts:30-47 | in verifying logs one entry's hash fixes its position and everything before it |
| `AuditChain.SameHeadSameLog` | src/audit/store.ts:30-47 | verifying logs with the same final hash are identical |
| `AuditChain.OnlyPrefixesVerify` | src/audit/store.ts:245-282 | a sequence made from a verifying log's entries by dropping, repeating or reordering verifies if and only if it is a prefix |
| `AuditChain.TamperingExactly` | src/audit/store.ts:235-282 | given a verifying log, any other log verifies if and only if it is a prefix of it with contents sealed again on top, under hashes that do not occur in it |
| `AuditChain.ResealingUndetected` | src/audit/store.ts:235-282 | any prefix of a verifying log with any contents sealed on top verifies |
| `AuditChain.EditDetectedExactly` | src/audit/store.ts:245-282 | replacing an entry is undetected if and only if it is the last and properly linked and hashed |
| `AuditPaging.PageAfter` | src/audit/sqliteRepository.ts:119-196 | the SQLite page after a cursor is the next matches after that row, with a next cursor exactly when more exist |
| `AuditPaging.PagesAreFilteredLog` | src/audit/sqliteRepository.ts:119-196 | while entries are appended between requests the concatenated pages are a prefix of the filtered log, and all of it when no cursor is returned |
| `AuditPaging.RowsAreSelection` | src/audit/sqliteRepository.ts:340-391 | the cursor query returns the matching rows after a row, in order |
| `AuditPaging.SelectExactly` | src/audit/store.ts:188-197 | the selection is exactly the entries with every value asked for and a timestamp within the bounds asked for; an empty value does not filter |
| `AuditPaging.PageSizeExactly` | src/audit/sqliteRepository.ts:120-120 | a limit within 1..100 is used as given, others are moved to the nearer end, none means 50 |
| `AuditPaging.SqliteOtherCursors` | src/audit/sqliteRepository.ts:124-158 | a cursor of another query is refused, and one that cannot be read or whose entry is missing starts again |
| `AuditPaging.MemoryOtherCursors` | src/audit/store.ts:163-185 | in memory all of these start again |
| `AuditPaging.MemoryPageExactly` | src/audit/store.ts:158-227 | the in-memory page after an entry is the right one if and only if nothing after it matches the filters or every entry up to it does |
| `AuditPaging.MemoryMatchesSqlite` | src/audit/store.ts:158-227 | while everything before the cursor matches, the in-memory page and next cursor equal SQLite's |
| `AuditPaging.MemoryWalkIsTableWalk` | src/audit/store.ts:158-227 | without filters, following the in-memory cursor while entries are appended collects the same entries and cursors as following the SQLite one |
| `AuditPaging.MemoryPagesAreLog` | src/audit/store.ts:158-227 | without filters the concatenated in-memory pages are a prefix of the growing log, and all of it when no cursor is returned |
| `AuditPaging.FilteredMemoryWalkLoses` | src/audit/store.ts:158-227 | of two matching entries behind one that does not match, a walk one entry at a time gets the first and no next cursor |
| `AuditPaging.LosableEntries` | src/audit/store.ts:158-227 | such entries exist |
| `CanonicalJson.QuoteReadable` | src/contractMetadata.ts:32-40 | a quoted string, with lone surrogates escaped, can be read back in one way only, whatever follows it |
| `CanonicalJson.Readable` | src/contractMetadata.ts:31-41 | a value's text followed by a delimiter determines the value up to member order, and where it ends |
| `CanonicalJson.SortedKeysSame` | src/contractMetadata.ts:38-40 | objects with the same keys are printed in the same key order, ascending by code units |
| `CanonicalJson.CanonicalTextExactly` | src/contractMetadata.ts:31-41 | same canonical text if and only if equal up to member order at every depth |
| `CanonicalJson.SortedKeysAscend` | src/contractMetadata.ts:38-40 | the keys of an object are printed in strictly ascending order of their code units |
| `CanonicalJson.EscapeExactly` | src/contractMetadata.ts:32-32 | which units are escaped, and how |
| `JsonReader.ValueReads` | src/contractMetadata.ts:31-41 | an RFC 8259 reader reads the text of any value back, in the order printed, and stops exactly at its end |
| `JsonReader.CanonicalTextReadsBack` | src/contractMetadata.ts:31-41 | an RFC 8259 reader gets back from canonical text the value up to member order, with the keys ascending at every depth |
| `CanonicalJson.CanonicalTextClean` | src/contractMetadata.ts:43-47 | canonical text has no control character and no lone surrogate, so the UTF-8 encoding that is hashed loses nothing |
| `CsvExport.CreateCsvExport` | src/audit/exportService.ts:252-261 | the generator's file and record count |
| `CsvExport.CellReads` | src/audit/exportService.ts:108-117 | a cell reads back as its neutralised text |
| `CsvExport.CellQuotedExactly` | src/audit/exportService.ts:108-117 | a cell is quoted exactly when it holds a quote, a comma or a line break |
| `CsvExport.RowReads` | src/audit/exportService.ts:120-125 | a row reads back as one record |
| `CsvExport.ExportReadsBack` | src/audit/exportService.ts:252-261 | an RFC 4180 reader gets back the header and exactly one record per entry |
| `CsvExport.RecordFields` | src/audit/exportService.ts:54-65 | each record has ten fields, the columns in the order of the header; each is its text, with an apostrophe in front exactly if it starts with one of the six formula characters |
| `CsvExport.NeutraliseExactly` | src/audit/exportService.ts:90-96 | two texts are neutralised to the same one if and only if they are equal or one is dangerous and the other is it with an apostrophe |
| `KeyPages.PageIs` | src/auth/apiKeyPagination.ts:124-146 | a page is in order, lies after the cursor, has the page size if more follows, and every later record is on it or after its last one |
| `KeyPages.PageNewestFirst` | src/auth/apiKeyPagination.ts:108-146 | a page has the newest keys first, and only keys older than its cursor |
| `KeyPages.PageSizeExactly` | src/auth/apiKeyPagination.ts:129-131 | a finite limit is truncated and held within 1..100, any other means 20 |
| `CodeUnits.LessExactly` | src/auth/apiKeyPagination.ts:114-121 | strings are compared at the first code unit in which they differ, a prefix coming first |
| `KeyPages.PrecedesOrders` | src/auth/apiKeyPagination.ts:108-122 | the sort comparison and the cursor test are one total order on positions: newer first, at one instant the greater id first |
| `KeyPages.PagesDescend` | src/auth/apiKeyPagination.ts:124-146 | pages followed while keys come and go form a list strictly descending in creation time and, at one instant, in id |
| `KeyPages.NothingMissed` | src/auth/apiKeyPagination.ts:124-146 | a key present throughout has been returned or lies ahead of the cursor, and has been returned once no cursor is |
| `KeyPages.PagesAreSortedSet` | src/auth/apiKeyPagination.ts:124-146 | on an unchanging set the pages are exactly the sorted set |
| `KeyPages.FinitelyManyPages` | src/auth/apiKeyPagination.ts:124-146 | on an unchanging set there are at most as many cursors as records |
| `Migrations.IsValidList` | src/db/migrations.ts:409-420 | accepts exactly versions 1, 2, 3, ... |
| `Migrations.CheckRow` | src/db/migrations.ts:477-522 | accepts a row exactly when listed, same name, and checksum missing, current or legacy; stores it with the current one |
| `Migrations.Database.VerifyApplied` | src/db/migrations.ts:468-523 | upgrades all rows, or stops at the lowest refused version with only lower rows upgraded |
| `Migrations.Database.ApplyPending` | src/db/migrations.ts:551-567 | commits pending migrations in order up to the first that fails |
| `Migrations.Database.RunMigrations` | src/db/migrations.ts:537-568 | one whole run: invalid list, refusal, failure or completion, with the resulting database |
| `Migrations.CrashesLeavePrefix` | src/db/migrations.ts:537-568 | through any failures, restarts and releases that keep the names and recorded sources of what was applied (and may repair or replace anything else) the applied versions are 1..n, each committed once, no run is refused, and a run stops only at a failing migration; the schema is what they build if no applied one changed its effect |
| `Migrations.SameAsUninterrupted` | src/db/migrations.ts:537-568 | once a run finishes, the rows and commits equal those of one uninterrupted run, and so does the schema if no applied migration changed its effect |
| `Migrations.SecondRunIsNoOp` | src/db/migrations.ts:537-568 | from any database, a run after a finished run executes and changes nothing |
| `Migrations.MismatchStops` | src/db/migrations.ts:503-521 | an unaccepted row stops the run with schema, commits and applied versions untouched |
| `Migrations.UpgradeApplies` | src/db/migrations.ts:494-516 | a release that keeps the names and recorded sources of what was applied, whether it adds a checksum source or edits a body under one, is accepted and every checksum brought up to date |
| `Migrations.EditRefusedExactly` | src/db/migrations.ts:439-522 | with a collision-free digest the row of a migration, with or without a checksum, is accepted by a later release if and only if the release lists it under the same name and the row has no checksum or was taken from that release's source, or from its body where it declares a source |
| `Migrations.FingerprintsEqualExactly` | src/db/migrations.ts:439-444 | two fingerprints are equal if and only if the versions are and the names and sources joined by a newline are; with one-line names, all three |
| `Migrations.RefusedExactly` | src/db/migrations.ts:468-523 | on a database an earlier release left behind, a run is refused if and only if the release changes the name or recorded source of something applied, or no longer lists it |
| `Migrations.BareEditRefused` | src/db/migrations.ts:503-521 | editing the body of an applied migration that declares no source makes the run refuse, with schema and commits untouched |
| `Migrations.EditUnderSourceUnnoticed` | src/db/migrations.ts:429-431 | a body and effect edited under an unchanged source: the run succeeds, executes nothing and leaves a schema the release's migrations would not build |
| `Indexer.ContractEventIndexer.IndexBatch` | src/contracts/indexer.ts:102-149 | stored events stay, each new key gets the first event submitted with it, every payload is counted once, rejections are reported in order of sequence, and the cursor |
| `Indexer.ContractEventIndexer.IngestAll` | src/contracts/indexer.ts:111-128 | the loop: counts, reasons, stored events and highest sequence of the payloads in the order given |
| `Indexer.ContractEventIndexer.Ingest` | src/contracts/processor.ts:12-41 | invalid, duplicate or stored, and the new store |
| `Indexer.FirstOfSorted` | src/contracts/indexer.ts:178-191 | sorting by sequence keeps the order of payloads with one key |
| `Indexer.WorkedOffInOrder` | src/contracts/indexer.ts:178-191 | a batch is worked off, and its rejections reported, by sequence, payloads without one last, and at one sequence as submitted |
| `Indexer.KeyExactly` | src/contracts/dedupe.ts:6-7 | two events share a key if and only if they have the same sequence and the same text `contractId:eventId` |
| `Decimals.DigitsDenote` | src/contracts/dedupe.ts:6-7 | a sequence number is printed as the decimal digits that denote it, without leading zeros |
| `Indexer.StoredIsSubmitted` | src/contracts/indexer.ts:102-149 | over any run of batches exactly the submitted keys are stored, and the accepted total is the number of new keys |
| `Indexer.SplittingDoesNotMatter` | src/contracts/indexer.ts:102-149 | however the same payloads are ordered, repeated and split, the same keys are stored and the same number accepted |
| `Indexer.ReplayIsNoOp` | src/contracts/indexer.ts:102-149 | replaying a batch accepts nothing and leaves store and cursor as they were |
| `Indexer.NothingNew` | src/contracts/processor.ts:21-27 | a batch of known keys is counted as duplicates and stores nothing |
| `Indexer.FirstSubmittedStays` | src/contracts/processor.ts:12-41 | over any run of batches, what is stored under a key is the first event ever submitted with it |
| `Indexer.CursorRegressesExactly` | src/contracts/indexer.ts:130-141 | a batch takes its source's cursor back if and only if it has accepted events and all of them lie before the cursor |
| `Indexer.CursorOverRun` | src/contracts/indexer.ts:130-141 | over any run a cursor is the highest accepted sequence of the latest batch of its source that had an accepted event |
| `Indexer.CursorDropsExactly` | src/contracts/cursor.repository.ts:182-202 | in any run a batch takes back a cursor written earlier in the run if and only if it is of that source, has accepted events, and some accepted event of the last batch that wrote it lies after all of them |
| `Indexer.CursorDrops` | src/contracts/cursor.repository.ts:182-202 | any two events with falling sequences, submitted one after the other to an empty store, are both stored and the cursor drops |
| `Indexer.KeyIdentifiesExactly` | src/contracts/dedupe.ts:6-7 | no other event the validator hands on has an event's key if and only if `contractId:eventId` has no further colon with trimmed, non-empty text on both sides |
| `Indexer.CollidingPair` | src/contracts/dedupe.ts:6-7 | two different events, both as the validator hands them on, with one key |
| `Indexer.CollidingEventLost` | src/contracts/processor.ts:21-27 | an event whose key is taken by another is counted as a duplicate and not stored |

## Left out

- Express routers, controllers and middleware, health probes, logging and metrics: input and output around the modelled state.
- SHA-256, HMAC, base64 and base64url: hashes are collision-free parameters, cursors are the data they encode; the 512-character limit on API key cursors and malformed-cursor errors of `decodeApiKeyCursor` are not modelled.
- Floating point: tokens and times are real numbers, so rounding in the bucket is not modelled.
- Redis connection handling and the in-memory fallback of `RedisBucketStore`: only the script and late replies are modelled.
- `syncLegacyStoreQueue` reads a field that does not exist and returns at once; it is omitted.
- E-mail normalisation and the hashing of account identities: an account is its storage key, or `None`.
- Audit records of lockouts are represented by the `triggeredLockout` and `releasedLockout` reports; a failing audit sink is not modelled.
- `AuditStore.query`, `stream` and offset pagination: single filters and slices.
- Redaction before export, temporary files and the NDJSON export.
- Numbers in JSON: a number is the text `JSON.stringify` prints; how that text is computed is not modelled. `undefined` is not a JSON value and is excluded.
- API key creation times are the parsed instants; unparsable dates are excluded.
- SQL itself: tables are sequences or maps with the constraints the schema declares.
- Event validation is a verdict given per payload; the insertion order of `listEvents`, `resumeFromCursor` and storage errors are not modelled.
- Deletion and expiry of fixed-window counters in `RateLimitStore`: unrelated to the token buckets.
