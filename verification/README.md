# Verified models of the tipping backend's protocols

Dafny models of the parts of the Stellar tipping backend in which state, time, interleaving or rounding
make correctness hard to see: its rate limiter, its Idempotency-Key protocol with three storage backends,
its layered cache, its event log with snapshots and a read model, its job queue, and its division of a tip
among team members. Each module states what one operation does, and then what follows for every run.

How the models are built:

- What the program changes in place is a class; its methods are proved equal to a step function (or to a
  step relation where a hash map or the database leaves a choice open). The step functions are then composed
  into runs, and the theorems about runs are lemmas by induction.
- Clocks, fresh tokens, compressed sizes, retry delays, gaps in sequence numbers, and whether Redis answers
  are arguments. Times are milliseconds, currency amounts are stroops.
- SQL statements, Redis commands and scripts are atomic. Where calls of several clients interleave
  (`PostgresInterleaving`, `RedisCommands`, `Middleware`, the second half of `Events`), the unit of
  interleaving is one statement or command.
- The middleware stands on the service over Redis and Postgres. The in-memory backend is the one that the
  repository's own tests give to the service; `MemoryMiddleware` has the runs over it.

| module | about |
|---|---|
| `Gcra`, `GcraRuns` | the Lua script and `check`; what whole runs admit |
| `Idempotency` | the protocol's vocabulary |
| `MemoryBackend`, `RedisBackend`, `RedisCommands`, `PostgresBackend`, `PostgresInterleaving` | the three backends, by call and by command or statement |
| `BackendAgreement` | one abstract machine, and exactly when all three backends keep to it |
| `IdempotencyService`, `ServiceRuns` | fallback and write-through; runs with any pattern of outages |
| `Outcomes`, `Middleware`, `Refusals`, `MemoryMiddleware` | requests and handlers over the service, and over the in-memory backend |
| `CachePolicies`, `CacheLayers`, `MultiLayerCache` | eviction, one layer, three layers |
| `Events`, `Cqrs` | event log, snapshots and replay; read model and synchronizer |
| `JobQueue` | the job table's retry state machine |
| `TipSplits` | dividing a tip |
| `Prelude`, `Arith` | shared vocabulary and small facts |

What the proofs found out about the code:

- The rate limiter's parameter documentation calls `burst` requests *additional* to the steady rate and says
  that `reset_after_secs` is the time to drain back to `limit`; the code admits exactly `burst` requests back
  to back, and the reset is the time until exactly `burst` fit again. The models follow the code.
- Reclaiming a crashed holder's row in Postgres leaves `expires_at` as it was. A reclaim late in the row's
  hour gives out a lease that outlives its row, and a third call then deletes and re-inserts the row under a
  live holder (`CrashThenTwoLive`, for every lease; the exact condition is `DoubledIffUncovered`).
- The three backends answer alike on prompt runs exactly when the lease is positive and at most an hour and
  the retention is a positive number of whole seconds (`AgreeIff`).
- The service's documentation promises that a replay survives the eviction of its Redis record. The
  write-through to Postgres is an UPDATE, so it stores something only if an earlier fallback inserted the row,
  and Postgres is consulted only while Redis does not answer (`ReplaySurvivesEvictionIff`,
  `WriteThroughWritesNothing`).
- Redis gives lock exclusion, not one execution per stored response, since `begin` looks for the record
  before it takes the lock (`CheckThenLockRaces`). A `begin` proceeds over a visible record exactly when a
  response was stored between its two commands and has not expired (`ProceedsOverRecordIff`), so only
  requests that had looked before a response was stored can execute again while it is kept
  (`LateStartHadLooked`).
- A pattern whose prefix and suffix overlap in the key matches although no text in place of the star gives
  the key (`SidesMayOverlap`, `WildcardIsGlobIff`).
- A value can be read from the cache for its own time to live plus both upper layers' default times, and no
  longer (`GetIsFresh`). That bound is reached exactly when the bottom layer can hold two entries
  (`FreshnessBoundReachedIff`).
- A window of one period admits `limit + burst` requests in some run exactly when the limit divides the period
  (`PeriodCapReachedIff`).
- `creator_state_at` is documented to start from a snapshot; the code replays from the first event.
- The synchronizer counts instead of reading sequence numbers: after a gap or an undecodable row it applies
  rows again (`SecondSyncIdleIff`).
- A batch that fails is applied again from its start on every retry and never gets past the failing event, so
  the retry loop succeeds only if its first attempt does, and every further attempt counts the tips before the
  clash once more (`SyncWithRetry`, `RetriesNeverPass`); it does no harm exactly when none of those tips
  belongs to a creator with a row (`RetryIsHarmlessIff`).
- Redis never gives out a second execution of a scope within the lease of its own unresolved first, whatever
  the outages (`RedisStartsApart`). Exactly when a second one starts is `SecondStartIff`: only Redis's own locks
  and records bar Redis, only the last row bars Postgres. A holder admitted by Redis that fails deletes the row of a holder admitted by
  Postgres, so that a third one starts (`ForeignFailure`; the exact condition is `TakenAwayIff`).
- No decodable event is ever skipped by the synchronizer, whatever the gaps and failures (`NothingIsSkipped`).
- The last member of a team can end up with a negative share (`LastMayBeNegative`). For the tips that are
  received, a positive whole number of stroops, teams of up to three are safe, and a larger one is safe
  exactly above an exact last part of half a stroop for each of the other members but two
  (`SafeAboveIff`). Among equal members the last one owes exactly when `EqualTeamOwesIff` says so. Amounts
  with fractions of a stroop, which the splitting itself would take, need half a stroop for each of the
  other members (`LastIsNonNegativeIf`, `NoSmallerBound`).

## Model

| member | source | states |
|---|---|---|
| Gcra.CheckParams | src/gateway/rate_limit_script.rs:117-123 | the emission interval is the least whole number of milliseconds that spreads the limit over the period, and the key's life exceeds a full burst |
| Gcra.CeilDiv | src/gateway/rate_limit_script.rs:120 | the least whole number of divisors that covers the dividend |
| Gcra.MsToSecsCeil | src/gateway/rate_limit_script.rs:145-151 | the least number of whole seconds no shorter than the delay, zero for none |
| Gcra.TatStore.Get | src/gateway/rate_limit_script.rs:37 | a key is read as stored, except that from its deadline on it may be gone |
| Gcra.TatStore.Script | src/gateway/rate_limit_script.rs:37-77 | the reply and the key afterwards, a rejection writing nothing, and the same reply whether or not an expired key is still there |
| Gcra.TatStore.Check | src/gateway/rate_limit_script.rs:108-142 | the decision in whole seconds and the key afterwards, from the limit, burst and period that the caller gives |
| GcraRuns.AllAdmittedForm | src/gateway/rate_limit_script.rs:49-66 | after a run admitted in full the stored time is the maximum, over the arrivals, of the arrival plus an interval for it and each later one |
| GcraRuns.FullyAdmittedConforms | src/gateway/rate_limit_script.rs:47-66 | from any stored value, a stream admitted in full satisfies (j-i)*e <= a_j - a_i + (burst-1)*e for all i <= j |
| GcraRuns.FullyAdmittedIff | src/gateway/rate_limit_script.rs:37-77 | from an empty key, a stream is admitted in full if and only if all its pairs satisfy that inequality |
| GcraRuns.RejectionsAreFree | src/gateway/rate_limit_script.rs:58-63 | deleting every rejected request from a run changes neither the stored time nor any other decision |
| GcraRuns.WindowCap | src/gateway/rate_limit_script.rs:43-66 | in any run, rejections included, a closed window of W milliseconds admits at most burst + floor(W/e) requests |
| GcraRuns.WindowCapIsReached | src/gateway/rate_limit_script.rs:43-66 | for every width some stream is admitted in full and fills its window up to the cap |
| GcraRuns.PeriodCap | src/gateway/rate_limit_script.rs:117-123 | with the parameters that `check` computes, any window of one period admits at most limit + burst requests |
| GcraRuns.PeriodCapReachedIff | src/gateway/rate_limit_script.rs:117-123 | some run admits limit + burst requests in one period if and only if the limit divides the period in milliseconds |
| GcraRuns.GreedyIsOptimal | src/gateway/rate_limit_script.rs:49-66 | no other choice of arrivals that keeps the spacing rule keeps more of them than the limiter admits |
| GcraRuns.LeakyBucketAgrees | src/gateway/rate_limit_script.rs:47-77 | the script and the continuous-state leaky bucket of Annex A of ITU-T I.371 decide alike on every run, stored time = level + last conforming time |
| GcraRuns.ExpiryIsHarmless | src/gateway/rate_limit_script.rs:121-123 | with a clock that never runs back, a key that vanishes at its deadline or any time later gives the same full replies as one that is never forgotten |
| GcraRuns.RemainingIsExact | src/gateway/rate_limit_script.rs:68-77 | after an admission, which asks for no wait, of any number of further requests at the same instant exactly the first `remaining` are admitted |
| GcraRuns.RetryIsExact | src/gateway/rate_limit_script.rs:56-63 | after a rejection a retry is admitted exactly from `retry_after_ms` on, and the whole-second header is the least that suffices |
| GcraRuns.ResetIsExact | src/gateway/rate_limit_script.rs:62-77 | a full burst fits again exactly from `reset_after_ms` on |
| MemoryBackend.InMemoryBackend.Begin | src/idempotency/store.rs:491-543 | replay, mismatch, conflict or a new holder, and the entries afterwards; a stale lease is reclaimed from exactly `lock_ttl` on |
| MemoryBackend.InMemoryBackend.Complete | src/idempotency/store.rs:545-563 | the current holder's response and expiry are recorded, anyone else's call changes nothing |
| MemoryBackend.InMemoryBackend.Fail | src/idempotency/store.rs:565-573 | the current holder's entry is removed, anyone else's call changes nothing |
| MemoryBackend.SecondBegin | src/idempotency/store.rs:519-527 | a second attempt proceeds from the end of the lease on, and until then is told the whole seconds of the lease, at least one |
| MemoryBackend.AfterCompletion | src/idempotency/store.rs:502-518 | after a completion an attempt is answered from the response for exactly the retention |
| MemoryBackend.AfterFailure | src/idempotency/store.rs:565-573 | a failure leaves the entries as if there had been no attempt |
| MemoryBackend.HeldUntil | src/idempotency/store.rs:519-527 | until it is resolved or its lease runs out, an execution stays recorded unchanged whatever is called |
| MemoryBackend.LeaseSpacing | src/idempotency/store.rs:491-573 | in every run, late holders included, two executions of one scope start at least `lock_ttl` apart unless the first was resolved in between |
| MemoryBackend.SupersededIsInert | src/idempotency/store.rs:554-573 | once a scope was given out again, whatever an earlier holder sends changes nothing |
| MemoryBackend.CompletedStays | src/idempotency/store.rs:502-518 | a completed entry stays as it is until it expires, whatever is called |
| MemoryBackend.ReplayUntilExpiry | src/idempotency/store.rs:502-518 | from a completion until its expiry every `begin` replays that response for its fingerprint and reports a mismatch for any other |
| RedisBackend.RedisBackend.SetNxPx | src/idempotency/store.rs:168-179 | the lock is taken exactly when no unexpired lock is there |
| RedisBackend.RedisBackend.Release | src/idempotency/store.rs:237-257 | the lock is deleted only if it is unexpired and carries the caller's token |
| RedisBackend.RedisBackend.Begin | src/idempotency/store.rs:134-193 | replay or mismatch from the record, else the lock, else a conflict with the lock's remaining time; a zero lease is an error |
| RedisBackend.RedisBackend.Complete | src/idempotency/store.rs:195-229 | record with whole-second life unless the body exceeds the cap, then release; with zero seconds an error that leaves the lock |
| RedisBackend.RedisBackend.Fail | src/idempotency/store.rs:231-234 | releases the caller's own lock |
| RedisBackend.SecondBegin | src/idempotency/store.rs:168-193 | a second attempt proceeds from the lock's deadline on, and until then is told the whole seconds that the lock has left, at least one |
| RedisBackend.AfterCompletion | src/idempotency/store.rs:208-228 | after a completion that fits an attempt is answered from the response for the whole seconds of the retention, and then proceeds |
| RedisBackend.AfterOtherCompletion | src/idempotency/store.rs:208-228 | a response that does not fit is not kept and frees the lock; with a retention below a second the completion is refused and the lock stays |
| RedisBackend.AfterFailure | src/idempotency/store.rs:237-257 | after a failure the next attempt proceeds at once if the token is the lock's, and otherwise from the deadline on |
| RedisCommands.LockStays | src/idempotency/store.rs:168-179 | under any interleaving a lock keeps its token and deadline until the deadline or its holder's release |
| RedisCommands.LockSpacing | src/idempotency/store.rs:168-193 | two acquisitions of one lock are at least `lock_ttl` apart unless the first holder released it |
| RedisCommands.StaleReleaseIsInert | src/idempotency/store.rs:237-257 | with unique tokens the release of an overtaken holder removes nothing |
| RedisCommands.ReleaseFreesLock | src/idempotency/store.rs:237-257 | the release of the lock's holder frees it: the next SET NX for the scope gets it |
| RedisCommands.NextAcquiresIff | src/idempotency/store.rs:168-183 | the next SET NX for a lock that nobody gave back succeeds if and only if Redis has dropped it, from `lock_ttl` after it was given out on |
| RedisCommands.RecordedIff | src/idempotency/store.rs:147-166 | under any interleaving a record is visible if and only if the last one stored has its deadline ahead |
| RedisCommands.ProceedsOverRecordIff | src/idempotency/store.rs:146-183 | in every run a `begin` that saw no record sets the lock over a visible one if and only if a response was stored in between and the last such record has not expired |
| RedisCommands.UndisturbedBeginIsExact | src/idempotency/store.rs:146-183 | a `begin` with no response stored between its two commands never proceeds over a visible record |
| RedisCommands.TokensAreFresh | src/idempotency/store.rs:168-183 | requests that follow the protocol set a lock at most once each |
| RedisCommands.OnlyHoldersRun | src/idempotency/store.rs:181-183 | only a request that got the lock runs its handler |
| RedisCommands.HandlersApart | src/idempotency/middleware.rs:64-128 | for interleaved requests, two handlers of one scope start at least `lock_ttl` apart unless the first one's request ran its release in between |
| RedisCommands.LateStartHadLooked | src/idempotency/store.rs:146-183 | a handler that starts while a stored response is kept belongs to a request that had looked before it was stored |
| RedisCommands.StoredResponseIsReplayed | src/idempotency/store.rs:147-166 | until its deadline the last stored response answers every request that looks: replay for its fingerprint, mismatch for any other |
| RedisCommands.CheckThenLockRaces | src/idempotency/store.rs:146-183 | the smallest run of requests in which a lock is given out while the scope's record is visible |
| PostgresBackend.PostgresBackend.Insert | src/idempotency/store.rs:285-303 | a row in flight with an hour to live, only where there is none |
| PostgresBackend.PostgresBackend.Select | src/idempotency/store.rs:311-321 | the scope's row unless it has expired |
| PostgresBackend.PostgresBackend.DeleteExpired | src/idempotency/store.rs:330-336 | removes the scope's row only if it has expired |
| PostgresBackend.PostgresBackend.Reclaim | src/idempotency/store.rs:363-381 | renews lease and fingerprint of a row in flight that is older than the lease, keeps its expiry, and tells whether it did |
| PostgresBackend.PostgresBackend.Begin | src/idempotency/store.rs:273-388 | an uninterrupted call, the retry after an expired row included, ends and gives the answer and rows of one atomic step |
| PostgresBackend.PostgresBackend.Complete | src/idempotency/store.rs:390-437 | an existing row gets response, whole-second expiry and is no longer in flight; a missing row stays missing |
| PostgresBackend.PostgresBackend.Fail | src/idempotency/store.rs:439-447 | deletes the scope's row if it is in flight |
| PostgresBackend.InsertKeepsRows | src/idempotency/store.rs:285-293 | inserting leaves every row that is there as it is |
| PostgresBackend.SecondBegin | src/idempotency/store.rs:285-388 | a second attempt proceeds once the lease is over or 3,600,000 milliseconds after the first, and until then is told the whole seconds of the lease, at least one |
| PostgresBackend.ThirdBegin | src/idempotency/store.rs:363-383 | taking a row over renews its lease but not its hour: a third attempt proceeds once either is over |
| PostgresBackend.AfterCompletion | src/idempotency/store.rs:413-424 | after a completion an attempt is answered from the row for the whole seconds of the retention, with an error where the body was not kept |
| PostgresBackend.AfterFailure | src/idempotency/store.rs:439-447 | a failure frees a row in flight at once and leaves a completed one |
| PostgresInterleaving.UninterruptedIsAtomic | src/idempotency/store.rs:273-388 | the statements of one `begin` with nothing in between answer within four of them and have the effect of the atomic call |
| PostgresInterleaving.AtMostOneLive | src/idempotency/store.rs:273-447 | with statements of any number of calls interleaved and crashed holders, two live executions of one scope are the same one, if every reclaim leaves the new holder its whole lease |
| PostgresInterleaving.AtMostOneUnresolved | src/idempotency/store.rs:273-447 | if every holder resolves within a lease shorter than an hour, each scope has at most one unresolved execution |
| PostgresInterleaving.DoneRowStays | src/idempotency/store.rs:413-424 | a completed row stays as it is until it expires, under any interleaving |
| PostgresInterleaving.NoSecondExecution | src/idempotency/store.rs:311-361 | from a completion until its expiry no `begin` on the scope proceeds, even one that was under way, and one that reads the row gets its response or a mismatch |
| PostgresInterleaving.DoubledIffUncovered | src/idempotency/store.rs:330-372 | some continuation gives a second live holder beside a live one if and only if the row expires no later than the lease |
| PostgresInterleaving.CrashThenTwoLive | src/idempotency/store.rs:330-372 | whatever the lease, two live holders of one scope are reached from an empty table |
| BackendAgreement.MemoryRun | src/idempotency/store.rs:489-573 | on prompt runs the in-memory entries are those of the abstract machine |
| BackendAgreement.RedisRun | src/idempotency/store.rs:134-257 | on prompt runs the Redis keys are those of the abstract machine with whole-second retention, expired records aside |
| BackendAgreement.PgRun | src/idempotency/store.rs:273-447 | on prompt runs the Postgres rows are those of the abstract machine with whole-second retention |
| BackendAgreement.BackendsAgree | src/idempotency/store.rs:70-93 | on prompt runs every `begin` is told the same by all three backends and the abstract machine, up to tokens and retry seconds |
| BackendAgreement.ProbeTellsApart | src/idempotency/store.rs:217-223 | a prompt run on which the backends differ when the retention is not a positive number of whole seconds |
| BackendAgreement.LeaseTellsApart | src/idempotency/store.rs:171-179 | a prompt run on which the backends differ when the lease is zero or longer than an hour |
| BackendAgreement.AgreeIff | src/idempotency/store.rs:70-93 | the backends agree on all prompt runs if and only if lease and retention are as in `BackendsAgree` |
| IdempotencyService.IdempotencyService.Begin | src/idempotency/service.rs:96-172 | Redis while it answers, Postgres otherwise |
| IdempotencyService.IdempotencyService.Complete | src/idempotency/service.rs:174-209 | Postgres and then, if it answers, Redis; a failure of Redis is ignored |
| IdempotencyService.IdempotencyService.Fail | src/idempotency/service.rs:211-218 | releases in both |
| IdempotencyService.WriteThroughWritesNothing | src/idempotency/service.rs:72-76 | while Redis answers every call, the service is the Redis backend and Postgres stays empty |
| IdempotencyService.FallbackIsPostgres | src/idempotency/service.rs:67-70 | while Redis answers none, the service is the Postgres backend |
| IdempotencyService.ReplaySurvivesEvictionIff | src/idempotency/service.rs:72-76 | after a completion whose Redis record is lost, a repeat is replayed if and only if Postgres had the scope's row with that fingerprint beforehand and Redis does not answer (or the lease is zero) |
| IdempotencyService.EvictionRepeatsExecution | src/idempotency/service.rs:72-76 | without outages before, a repeat after an eviction is given out again exactly when no Redis lock stands in its way |
| IdempotencyService.OutageIgnoresLocks | src/idempotency/service.rs:106-146 | an outage gives every scope away again, and after it Redis decides as if the outage's execution did not exist |
| ServiceRuns.LockedIff | src/idempotency/store.rs:168-193 | under any pattern of outages a lock stands if and only if the last execution that Redis gave out is within its lease and its holder has not released it |
| ServiceRuns.RecordedIff | src/idempotency/store.rs:205-226 | under any pattern of outages a record stands if and only if the last response stored in Redis is still kept |
| ServiceRuns.RedisStartsIff | src/idempotency/service.rs:106-118 | while Redis answers, a `begin` starts an execution if and only if neither that lock nor that record stands |
| ServiceRuns.RowAfter | src/idempotency/store.rs:413-447 | the row of the last execution that Postgres gave out is as it was, gone if a failure by anyone came first, or else done until the last completion expires |
| ServiceRuns.PostgresStartsIff | src/idempotency/service.rs:119-146 | while Redis does not answer, a `begin` starts an execution if and only if that row does not stand |
| ServiceRuns.RedisStartsApart | src/idempotency/service.rs:106-146 | whatever the outages, two executions given out by Redis are at least a lease apart unless the first was resolved in between while Redis answered |
| ServiceRuns.SecondStartIff | src/idempotency/service.rs:106-146 | exactly when a second execution starts within the lease of an unresolved first, for every pattern of outages |
| ServiceRuns.TakenAwayIff | src/idempotency/store.rs:439-447 | beside its own last execution Postgres gives out a second one if and only if another holder settled the scope first: failed it, or completed it and the last completion is no longer kept |
| ServiceRuns.ForeignFailure | src/idempotency/service.rs:211-218 | the smallest run in which a failing holder takes the row of another and a third execution starts |
| Middleware.Middleware.Arrive | src/idempotency/middleware.rs:64-90 | asks the service and answers with replay, refusal, or a handler under a new guard |
| Middleware.Middleware.Finish | src/idempotency/middleware.rs:89-128 | through the service completes below status 500, fails otherwise or when the response cannot be read, and consumes the guard |
| Refusals.LockedIsRefused | src/idempotency/middleware.rs:86-88 | a request for a key whose lock stands is refused with the whole seconds that the lock has left, and opens no guard |
| Refusals.RowIsRefused | src/idempotency/middleware.rs:86-88 | during an outage a request for a key whose row is in flight and within its lease is refused with the whole seconds of the lease |
| Refusals.UnguardedIff | src/idempotency/middleware.rs:69-77 | a handler runs without a guard if and only if the store fails: Redis is of no help and the row has lost its body |
| Refusals.SecondIsLocked | src/idempotency/middleware.rs:86-90 | in every run, while a handler under a guard of Redis runs within its lease, every other request for its key that Redis answers is told to come back after the whole seconds left |
| Middleware.GuardKept | src/idempotency/service.rs:47-55 | a request keeps its guard for as long as its handler runs |
| Middleware.TokenRetired | src/idempotency/service.rs:47-55 | a consumed guard's token is never held again |
| Middleware.HandlersApart | src/idempotency/middleware.rs:64-128 | over the service and under any pattern of outages, two handlers for one scope whose guards Redis gave out start at least `lock_ttl` apart unless the first finished in between |
| Middleware.StoredResponseIsReplayed | src/idempotency/middleware.rs:79-125 | over the service, the last response below 500 that Redis stored is replayed identically to every same-fingerprint request that Redis answers until it expires, and refused to others |
| Middleware.FailureFreesKey | src/idempotency/middleware.rs:112-128 | over the service, after a server error by the holder of the lock the next request that Redis answers runs its handler if and only if no response is on record |
| MemoryMiddleware.HandlersApart | src/idempotency/store.rs:459-575 | with the in-memory backend under the service, two handlers for one scope start at least `lock_ttl` apart unless the first finished in between |
| MemoryMiddleware.StoredResponseIsReplayed | src/idempotency/store.rs:459-575 | with the in-memory backend under the service, a response below 500 by the current holder is replayed identically to every same-fingerprint request until expiry, and refused to others |
| MemoryMiddleware.FailureFreesKey | src/idempotency/store.rs:459-575 | with the in-memory backend under the service, after a server error by the current holder the key is free and the next request runs its handler |
| CachePolicies.SelectVictims | src/cache/policies.rs:50-70 | the first `count` keys in the strategy's order |
| CachePolicies.StableSortSorts | src/cache/policies.rs:52-63 | sorting is an ordered permutation for all four strategies |
| CachePolicies.VictimsAreStored | src/cache/policies.rs:65-69 | for distinct keys the victims are distinct stored keys, `count` of them or all |
| CachePolicies.VictimsAreLeast | src/cache/policies.rs:50-70 | no survivor is ordered strictly before a victim, for all four strategies and any count |
| CachePolicies.VictimsOnFields | src/cache/policies.rs:52-63 | no survivor was last used before a victim (LRU), used less often (LFU), expires earlier (TTL), or comes first by use count, last use and larger size (Adaptive) |
| CachePolicies.EarlierTiesGoFirst | src/cache/policies.rs:52-63 | sorting puts an entry listed first in front of those it ties with |
| CacheLayers.SharedLayer.Get | src/cache/layers.rs:40-56 | an entry is served up to and including its deadline, marked as used, and removed after it |
| CacheLayers.SharedLayer.ListKeys | src/cache/layers.rs:65-67 | every stored key once, in an order that is left open |
| CacheLayers.SharedLayer.SetWithTtl | src/cache/layers.rs:58-95 | a full layer gives up one victim, then the new entry is there |
| CacheLayers.SharedLayer.DeletePattern | src/cache/layers.rs:97-110 | exactly the matching entries are gone, and counted |
| CacheLayers.ReadIsRecorded | src/cache/layers.rs:43-55 | an entry is served up to its deadline, the read sets its last use and counts one up to the largest count, and changes nothing else |
| CacheLayers.DeletesOnlyMatches | src/cache/layers.rs:97-110 | an invalidation removes every instance of its pattern and nothing that does not fit its prefix and suffix, and changes no other entry |
| CacheLayers.Evicted | src/cache/layers.rs:64-80 | a layer that is not full gives up nothing, a full one exactly one entry |
| CacheLayers.SetShape | src/cache/layers.rs:64-94 | writing leaves every entry but the evicted and the written one as it was |
| CacheLayers.SetKeepsCapacity | src/cache/layers.rs:64-94 | writing keeps a layer within max(1, max_entries) |
| CacheLayers.EvictsTheLeast | src/cache/layers.rs:64-80 | what is evicted is ordered no later than everything that stays |
| CacheLayers.EvictsOnFields | src/cache/layers.rs:64-80 | what each strategy gives up, on the fields of the stored entries |
| CacheLayers.LastUsedSurvives | src/cache/layers.rs:64-80 | with LRU the key used strictly last survives the next write if there is another |
| CacheLayers.ReadSurvivesWrite | src/cache/layers.rs:50-80 | with LRU a read keeps its key from the next eviction |
| CacheLayers.WildcardIsGlobIff | src/cache/layers.rs:243-253 | a key is an instance of the pattern if and only if it matches and is long enough for both sides of the star |
| CacheLayers.SidesMayOverlap | src/cache/layers.rs:248-250 | a match that is no instance of its pattern |
| MultiLayerCache.MultiLayerCache.Get | src/cache/mod.rs:70-96 | the first layer that has the value answers and every layer above is filled with its default time to live |
| MultiLayerCache.MultiLayerCache.Set | src/cache/mod.rs:98-107 | all three layers are written with the given time to live |
| MultiLayerCache.MultiLayerCache.InvalidatePattern | src/cache/mod.rs:109-114 | matching entries are gone from all layers |
| MultiLayerCache.MultiLayerCache.InvalidateL1Pattern | src/cache/mod.rs:116-119 | matching entries are gone from the first layer only |
| MultiLayerCache.FirstLayerAnswers | src/cache/mod.rs:74-95 | a read gives the payload of the first layer that still serves the key, and nothing if none does |
| MultiLayerCache.ReadFillsAbove | src/cache/mod.rs:78-93 | a hit leaves the payload in every layer above for that layer's default time from now on, and what is below untouched |
| MultiLayerCache.WriteReachesAll | src/cache/mod.rs:98-107 | a write is in all three layers for its own time to live |
| MultiLayerCache.InvalidatedIsGone | src/cache/mod.rs:109-114 | after a full invalidation an instance of its pattern is not found, and other keys are read as before |
| MultiLayerCache.TopInvalidatedIsRead | src/cache/mod.rs:116-119 | after one of the first layer alone the lower layers still answer |
| MultiLayerCache.InvalidatedStaysGone | src/cache/mod.rs:70-114 | in every run no read finds an invalidated key until it is set again |
| MultiLayerCache.CoherentAt | src/cache/mod.rs:70-119 | in every run, every entry of every layer is the last value set since the last matching invalidation, with a deadline at most ttl, ttl + L2 default, ttl + L2 + L1 defaults after that set |
| MultiLayerCache.GetIsFresh | src/cache/mod.rs:70-107 | in every run a read gives nothing or the plain map's value, set at most ttl + L2 default + L1 default before |
| MultiLayerCache.CapacityAt | src/cache/layers.rs:64-80 | in every run each layer stays within max(1, max_entries) |
| MultiLayerCache.ReadYourWrite | src/cache/mod.rs:70-107 | a read right after a write finds what was written until its own time runs out |
| MultiLayerCache.FreshnessBoundIsTight | src/cache/mod.rs:78-93 | if the bottom layer can hold two entries, some run reaches the bound of `GetIsFresh`, for all other capacities, strategies and times to live |
| MultiLayerCache.FresherWithOneEntry | src/cache/mod.rs:78-93 | with a bottom layer for one entry, a value is read at most ttl + L1 default after its set |
| MultiLayerCache.FreshnessBoundReachedIff | src/cache/mod.rs:78-93 | with any L2 default above zero, some run reaches the bound of `GetIsFresh` if and only if the bottom layer can hold two entries |
| Events.ApplyAll | src/events/projections.rs:17-44 | applying events in place is the fold of the events |
| Events.EventStore.Insert | src/events/store.rs:20-34 | one row with a number above all earlier ones |
| Events.EventStore.Count | src/events/store.rs:37-40 | the number of the aggregate's rows, undecodable ones included |
| Events.CountIsSize | src/events/store.rs:37-40 | the count is the size of the set of rows of the aggregate |
| Events.EventStore.Query | src/events/store.rs:50-125 | the decodable events of the aggregate (or of all) in the given range of numbers, in order |
| Events.SelectsOwn | src/events/store.rs:50-108 | selecting for one aggregate gives exactly its own events among those selected for all |
| Events.EventStore.WriteSnapshot | src/events/store.rs:130-151 | the fold of the aggregate's events up to the number, unless that snapshot exists |
| Events.EventStore.Append | src/events/store.rs:20-47 | the new row, and a snapshot exactly at every fiftieth row of the aggregate |
| Events.EventStore.LoadLatestSnapshot | src/events/store.rs:155-170 | the aggregate's snapshot with the greatest number, none only if it has none |
| Events.CreatorState | src/events/replay.rs:15-31 | latest snapshot plus later events equals the fold of all of the creator's own events, in order |
| Events.CreatorStateAt | src/events/replay.rs:35-43 | the fold of the creator's own events among the rows up to the number |
| Events.SelectSplit | src/events/replay.rs:17-26 | the events up to a number followed by those after it are all events, none lost or doubled |
| Events.StateAtEnd | src/events/replay.rs:35-43 | from the log's last number on, time travel selects everything |
| Events.OwnEvents | src/events/store.rs:50-64 | everything selected for an aggregate is its own part of the decoded log |
| Events.OwnEventsUpTo | src/events/store.rs:89-108 | up to a number it is its own part of the decoded rows up to that number |
| Events.UninterruptedAppend | src/events/store.rs:20-47 | the statements of one append with nothing in between add the row and its snapshot exactly at a multiple of fifty rows |
| Events.SnapshotIffFiftieth | src/events/store.rs:36-44 | when appends do not overlap, a snapshot exists at a number if and only if that row is its aggregate's fiftieth, hundredth, and so on |
| Events.SnapshotsAreExact | src/events/store.rs:20-151 | however the insert, count, load and write statements of appends interleave, every stored snapshot is the fold of its aggregate's own events up to its number |
| Events.CreatorStateIsFullReplay | src/events/replay.rs:15-43 | a reader overtaken by any appends between its two reads still gets the fold of all of the creator's own events at the second read, and time travel to the end agrees |
| Cqrs.CqrsProjection.SyncEvent | src/cqrs/projections.rs:26-58 | one event's effect on the rows; a taken username fails and changes nothing |
| Cqrs.CqrsProjection.SyncEvents | src/cqrs/projections.rs:76-80 | events are applied in order up to the first that fails, and the number applied is reported |
| Cqrs.SyncSucceedsIff | src/cqrs/projections.rs:26-58 | applied to an empty table, events succeed if and only if no two creators register first under one username |
| Cqrs.CqrsProjection.Rebuild | src/cqrs/projections.rs:61-70 | the rows of the whole log applied to an empty table |
| Cqrs.CqrsProjection.SyncFromSequence | src/cqrs/projections.rs:74-93 | the events from a number on are applied, and the reported number is counted from them |
| Cqrs.CqrsSynchronizer.SyncOnce | src/cqrs/synchronizer.rs:29-37 | rows and position afterwards; after a failure the position stays and the applied prefix remains |
| Cqrs.IncrementalEqualsRebuild | src/cqrs/synchronizer.rs:29-37 | on a gap-free decodable log, under every schedule of appends and successful calls, each event is applied exactly once, the position is their number, and the rows equal a rebuild's |
| Cqrs.SecondSyncIdleIff | src/cqrs/projections.rs:82-86 | a second call right after a successful one has nothing to apply if and only if the applied rows were numbered without a gap |
| Cqrs.NothingIsSkipped | src/cqrs/synchronizer.rs:29-37 | on every log, gaps and undecodable rows included, and under every schedule of writes, successful and failed calls: the position never passes the last number, every decodable row up to it has been applied, after a success every one in the log, and the rows are those of what was applied |
| Cqrs.CallMoves | src/cqrs/projections.rs:82-86 | a successful call moves the position by as many numbers as it applied events, a failed one not at all |
| Cqrs.CqrsSynchronizer.SyncWithRetry | src/cqrs/synchronizer.rs:40-62 | succeeds if and only if its first attempt does, else makes all its attempts, each applying the same events again, and leaves the position unchanged |
| Cqrs.RepeatedIsRecount | src/cqrs/synchronizer.rs:40-62 | after k failed attempts every tip before the clash has been counted k - 1 times too often, and the next fails too |
| Cqrs.ReapplyCountsTips | src/cqrs/projections.rs:26-58 | applied to rows that know everyone who registers, events only add their tips, each in full |
| Cqrs.FailedRetry | src/cqrs/synchronizer.rs:29-37 | for every batch that failed and after any number of retries, the next one applies the events before the clash again and fails at the same event, even on a longer log |
| Cqrs.RetryIsHarmlessIff | src/cqrs/synchronizer.rs:29-37 | a retry changes no row if and only if no tip before the clash belongs to a creator who had a row or registered before it |
| Cqrs.RetriesNeverPass | src/cqrs/synchronizer.rs:40-62 | calls from one position while the log grows: once one has failed all fail at the same event, and call k leaves the tips before it counted k times too often |
| Cqrs.FailedBatchIsReapplied | src/cqrs/synchronizer.rs:46-59 | the smallest case: one tip, one clash, counted twice after one retry |
| Cqrs.RowsAreFirst | src/cqrs/projections.rs:26-58 | a row holds the creator's first registration and the tips since; without registration there is none |
| Cqrs.ProjectionsAreLast | src/events/projections.rs:17-44 | a projection holds the last registration and every tip |
| Cqrs.RowMatchesProjectionIff | src/events/projections.rs:17-44 | a row matches its creator's projection if and only if no tip came before the registration and no later registration changed the identity |
| JobQueue.JobQueueManager.Enqueue | src/jobs/queue.rs:22-49 | a new pending job, ready at once |
| JobQueue.JobQueueManager.Dequeue | src/jobs/queue.rs:52-79 | a ready job that no ready job precedes by priority and schedule, now running for the worker with one more attempt; nothing only if none is ready |
| JobQueue.JobQueueManager.Complete | src/jobs/queue.rs:82-92 | the job is completed |
| JobQueue.JobQueueManager.Fail | src/jobs/queue.rs:95-144 | another attempt after the delay while attempts remain, the dead letter queue otherwise, an error for a missing job |
| JobQueue.JobQueueManager.CleanupOldJobs | src/jobs/queue.rs:168-183 | exactly the old finished jobs are gone, and counted |
| JobQueue.JobQueueManager.QueueMetrics | src/jobs/queue.rs:186-208 | the five counts, which add up to all jobs |
| JobQueue.FirstIsHighest | src/jobs/queue.rs:61-68 | the job given out waits, none that waits has a higher priority, and none of the same priority is scheduled earlier |
| JobQueue.NoneWaits | src/jobs/queue.rs:61-68 | nothing is given out only if every job runs, is finished or is scheduled for later |
| JobQueue.NewJobWaits | src/jobs/queue.rs:33-43 | a new job waits at once with the priority and the attempts asked for |
| JobQueue.StartedRuns | src/jobs/queue.rs:56-60 | the job given out runs for its worker on one attempt more, and no other job changes |
| JobQueue.FailedWaits | src/jobs/queue.rs:107-141 | a failed job with attempts left waits again exactly from the delay on, one without is a dead letter |
| JobQueue.CompletedRests | src/jobs/queue.rs:82-92 | a completed job never waits again |
| JobQueue.CleanupDeletes | src/jobs/queue.rs:168-183 | exactly the completed jobs and dead letters created before the cutoff are deleted |
| JobQueue.StaysAsEnqueued | src/jobs/queue.rs:22-144 | in every run a job keeps the priority, limit and age that it was enqueued with |
| JobQueue.RetryWaits | src/jobs/queue.rs:107-122 | in every run a failed job is not given out again before its delay is over |
| JobQueue.OneOwner | src/jobs/queue.rs:52-79 | in every run no job has two owners, and a held job is running |
| JobQueue.BoundedAttempts | src/jobs/queue.rs:95-144 | in every run each job ever enqueued, deleted ones included, is given out at most max(1, max_retries) times |
| JobQueue.DeadLettersAreExhausted | src/jobs/queue.rs:131-137 | in every run a dead letter was given out exactly max(1, max_retries) times |
| JobQueue.JobsAreConserved | src/jobs/queue.rs:168-208 | in every run the five counts add up to the jobs enqueued less those cleaned up |
| JobQueue.RunsEnd | src/jobs/queue.rs:52-144 | a run without new jobs makes at most as many steps of progress as the work at its start |
| JobQueue.IdleMeansFinished | src/jobs/queue.rs:52-144 | with no job held, ready or scheduled for later, every job is completed or a dead letter |
| TipSplits.RecordTipSplits | src/controllers/team_controller.rs:239-279 | one row per member in order, all but the last rounded, the last the remainder; no rows without members or shares |
| TipSplits.SumOfShares | src/controllers/team_controller.rs:252 | the total of the shares |
| TipSplits.RoundsToNearestEven | src/controllers/team_controller.rs:264 | rounding gives the one whole number that is strictly nearest or, on a tie, even |
| TipSplits.SplitsSumToTip | src/controllers/team_controller.rs:257-267 | the rows always add up to the tip exactly |
| TipSplits.ErrorsAddUp | src/controllers/team_controller.rs:257-267 | the rounding errors of the first n rows add up to at most n/2 stroops |
| TipSplits.SplitsAreFair | src/controllers/team_controller.rs:257-267 | every member but the last is within half a stroop of its exact part, ties to even, and the last within (n-1)/2 stroops |
| TipSplits.LastMayBeNegative | src/controllers/team_controller.rs:258-260 | five stroops among eight equal members leave the last one at minus two |
| TipSplits.RowsAreWhole | src/controllers/team_controller.rs:258-267 | of a whole number of stroops every member gets a whole number |
| TipSplits.WholeTipIsSafeAbove | src/controllers/team_controller.rs:258-267 | of a whole number of stroops the last amount is not negative when its exact part exceeds half a stroop for each of the other members but two |
| TipSplits.SmallTeamsNeverOwe | src/controllers/team_controller.rs:258-267 | of a positive whole number of stroops and with positive shares, the last of up to three members never has a negative amount |
| TipSplits.LastOwesOne | src/controllers/team_controller.rs:258-267 | for every team of four members or more a receivable tip whose last exact part is that bound and whose last amount is minus one |
| TipSplits.SafeAboveIff | src/controllers/team_controller.rs:258-267 | for receivable tips a bound on the last exact part keeps the last amount from being negative if and only if the team has at most three members or the bound is at least half a stroop for each of the others but two |
| TipSplits.EqualTeamOwesIff | src/controllers/team_controller.rs:258-267 | among n equal members the last amount is negative if and only if the others' part rounds up and quotient and remainder of the tip by n come to less than n - 1 |
| TipSplits.LastIsNonNegativeIf | src/controllers/team_controller.rs:258-260 | whatever the amount, fractions of a stroop included, the last amount is not negative when its exact part covers half a stroop for each other member |
| TipSplits.ThresholdIsExact | src/controllers/team_controller.rs:258-267 | on a family of amounts, most with fractions of a stroop, for any number of members: the last amount is not negative if and only if its exact part covers half a stroop for each other member |
| TipSplits.NoSmallerBound | src/controllers/team_controller.rs:258-267 | for amounts with fractions of a stroop and positive shares, from two members on no bound below half a stroop for each other member keeps the last amount from being negative |

## Left out

- Gcra.CheckParams: takes the rounded-up quotient exactly, where the program divides in `f64`; integer widths and Lua's doubles are not modelled, here or elsewhere, except the saturating access counter of the cache.
- GcraRuns.ExpiryIsHarmless: supposes one clock that does not run back; the other run theorems of the limiter hold for any order of times.
- MemoryBackend.SupersededIsInert: tokens are natural numbers supposed fresh, in place of random UUIDs; the same in `RedisCommands`.
- RedisBackend.RedisBackend.Begin: in atomic calls a key is visible strictly before its deadline, and stored records always decode; `RedisCommands` and `GcraRuns` allow Redis to drop keys any time after their deadlines.
- RedisBackend.RedisBackend.Complete: compression is its own inverse with a given size, so a record holds the response itself; the serialization errors do not occur.
- PostgresBackend.PostgresBackend.Begin: only the columns that the protocol reads are modelled, and a missing body is an error, as decompressing nothing is.
- PostgresInterleaving.AtMostOneLive: late holders are excluded (completing ignores the token, so a late one would resolve its successor's row), and a reclaim must leave the new holder its lease; without that `CrashThenTwoLive` holds.
- PostgresInterleaving.NoSecondExecution: over-cap bodies are included, and their replay is then the error of a missing body.
- BackendAgreement.BackendsAgree: holders resolve within their lease and bodies fit the cap; calls are atomic, which Redis's are not (`CheckThenLockRaces`).
- IdempotencyService.IdempotencyService.Complete: Postgres always answers; its own outages are errors that the service hands on.
- Middleware.Middleware.Arrive: requests without a key, malformed keys, unreadable bodies and the pass-through of other HTTP methods are left out; scope and fingerprint hashes are opaque values.
- Middleware.HandlersApart: the service's calls are atomic; `RedisCommands.HandlersApart` is the statement for single Redis commands, and `SecondStartIff` says what happens beside guards that Postgres gave out.
- Middleware.StoredResponseIsReplayed: requests during an outage are answered by Postgres; `ReplaySurvivesEvictionIff` and `PostgresStartsIff` say how.
- ServiceRuns.SecondStartIff: a positive lease, and calls that are atomic and that Redis answers from beginning to end or not at all; Postgres always answers.
- RedisCommands.HandlersApart: Redis answers every command; what an outage does is in `IdempotencyService`. A lease of zero, which Redis refuses, is not excluded but promises nothing.
- RedisCommands.LateStartHadLooked: records are visible strictly before their deadlines, and none is evicted early.
- CacheLayers.SharedLayer.SetWithTtl: times to live beyond the date library's range, which fall back to the default, do not occur.
- MultiLayerCache.MultiLayerCache.Get: one clock reading per call, and calls do not interleave at their awaits, where a read could fill a layer behind a concurrent write; decoding the payload is left to the caller.
- Events.EventStore.Insert: rows become visible in the order of their numbers; a lost number is a gap. Version numbers and transaction hashes are not modelled.
- Events.EventStore.LoadLatestSnapshot: stored snapshots always decode.
- Events.EventStore.Append: the write's failure, which the program ignores, is not modelled; interleaved appends may step over a multiple of fifty and write no snapshot, and nothing is claimed about that.
- Cqrs.CqrsProjection.SyncEvent: the only failing statement is the unique username, which fails on every retry; lost connections, after which a retry may succeed, and concurrent synchronizers are not modelled.
- Cqrs.CqrsSynchronizer.SyncWithRetry: the growing delays between attempts are left out, and the log does not grow during the loop; `RetriesNeverPass` lets it grow.
- Cqrs.IncrementalEqualsRebuild: supposes successful calls on a gap-free decodable log; `SecondSyncIdleIff` and `RetriesNeverPass` say what happens otherwise.
- JobQueue.JobQueueManager.Fail: the delay is any non-negative number in place of the retry policy, and the read and the update of a row are one step, since only its owner touches a running row.
- JobQueue.JobQueueManager.Dequeue: as one uncontended statement; rows locked by other workers' statements are passed over in the program, so the theorems about runs allow any ready job, or none, to be given out.
- JobQueue.JobQueueManager.Enqueue: job types and payloads are not modelled; listing dead letters and the worker loop are left out.
- TipSplits.SafeAboveIff: tips are taken to be received as validation admits them, positive and with at most seven decimals, and shares to be positive as the table demands.
- TipSplits.RecordTipSplits: the quotient is exact, where the program's decimals keep 28 digits; the sum of shares does not overflow; finding the team and its members, and parsing the amount, are left out.
- Eviction by `should_evict`, cache warming and statistics, and the coordination between instances: easy members beside the layers.
- Collaboration, HTTP and GraphQL handlers, e-mail, content delivery, health checks and the ledger listener: not stateful protocols of this kind.
