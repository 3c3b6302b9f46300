# Filosign server core in Dafny

This project models the server core of the Filosign dapp:

- **Chain indexer** (`lib/indexer/engine.ts`). One indexer per contract keeps a checkpoint, a block height, in `indexer_checkpoints`. Each cycle it:
  - takes the chain head less six confirmations;
  - scans at most 200 blocks past the checkpoint;
  - sorts the fetched logs by block number and log index;
  - enqueues one `pending_jobs` row per log;
  - advances the checkpoint.
- **Job queues.** Three variants work over `pending_jobs`. Each claim leases the oldest-due claimable job, and failures back off exponentially or park the job at `nextAttemptAt = -1`.
  - `lib/jobrunner/scheduler.ts` claims with one conditional UPDATE. Its failure handler reads the stored `tries`.
  - `lib/indexer/scheduler.ts` claims with select-then-update. It deletes a job as soon as it is posted, and its failure handler adds a try of its own.
  - `lib/indexer/workers.ts` uses the same claim and handles outcomes inline.
- **Event worker** (`lib/indexer/worker.ts`). It turns `FSFILEREGISTRY_EVENT_SenderApproved` / `SenderRevoked` jobs into updates of the share approvals.
- **Schema** (`lib/db/schema/sys.ts`, `lib/db/schema/shareCapability.ts`). Record shapes, defaults, enums and unique keys, plus the `tBoolean` / `tBigInt` column codecs and `bigIntMin` / `bigIntMax`.
- **Share-request routes** (`api/routes/requests/index.ts`):
  - create, with validation;
  - the pending list;
  - cancel, the PENDING to CANCELLED transition with its error codes.
- **Authentication.** The signed-header middleware with its set of consumed signatures (`api/middleware/auth.ts`), and the sign-in-with-Ethereum challenge store with one-shot challenges (`api/routes/auth/index.ts`).

How the model is built:

- **Tables are classes.**
  - A table holds a `rows` sequence in insertion order: `PendingJobs`, `ShareApprovals`, `ShareRequests`.
  - The checkpoint table is a map keyed by its primary key.
  - The module-level `consumedSignatures` and `messages` records are the fields of `SignatureLedger` and `ChallengeStore`.
- **Operations are methods.** Each operation that changes a table is a method. Its `ensures` ties the new state to a specification function of the old state, and lemmas state what the source promises about that function.
- **Transactions are atomic.** Each database transaction is one method.
- **Outside inputs are parameters.** The clock, the random jitter, the chain head, the fetched logs, the executor's outcome and the indexer's database write that throws are all inputs to the methods. So is the set of registered `users` addresses that the sender's foreign key checks.
- **Foreign functions are uninterpreted.** viem's `isAddress`, `getAddress`, `isHash`, `verifyMessage`, `createSiweMessage` and `verifySiweMessage`, and `issueJwtToken`, appear as function-typed fields of small datatypes: `AddressBook`, `Viem`, `Siwe`.
- **Ids are counters.** `Bun.randomUUIDv7()` ids are drawn from a per-table counter `nextId`. That counter is unique and increasing, as UUIDv7 is within a process.
- **Partial updates are patches.** A drizzle `.set({...})` is a patch datatype, such as `JobSet` or `ApprovalSet`. `None` marks a column the statement leaves alone, because drizzle drops undefined values.

Each scan starts on the block right after the checkpoint: `engine.ts` has no lookback that would re-scan earlier blocks after a chain reorganisation, and the model has none either.

Two statements in the source are built but never executed, and one call's Promise is never awaited. All three are modelled both as written and as evidently intended; see "## Findings". The rest of the model uses the intended behaviour.

Two address comparisons are modelled as written:

- Create compares the checksummed recipient with the header address as received (`api/routes/requests/index.ts:21-22`).
- Cancel compares the checksummed sender with the header address as received (`api/routes/requests/index.ts:72-73`). The sender is `getAddress` of the address the select read back, which `tEvmAddress.fromDriver` has already passed through `getAddress` (`lib/db/helpers.ts:36-38`), so the model applies it twice.

So a lower-case header address makes the self-request check pass and makes cancel answer 403. The model keeps both comparisons as written, with `getAddress` uninterpreted.

## Model

| member | source | states |
|---|---|---|
| MathUtils.FoldMin | packages/server/lib/db/utils/math.ts:2 | The reducer's result is the start value or one of the remaining elements, and is `<=` the start value and every remaining element. |
| MathUtils.FoldMax | packages/server/lib/db/utils/math.ts:6 | The reducer's result is the start value or one of the remaining elements, and is `>=` all of them. |
| MathUtils.BigIntMin | packages/server/lib/db/utils/math.ts:1-3 | Defined exactly for a non-empty list, since `reduce` without an initial value throws on `[]`. The result is an element of the list and `<=` every element. |
| MathUtils.BigIntMax | packages/server/lib/db/utils/math.ts:5-7 | Defined exactly for a non-empty list. The result is an element of the list and `>=` every element. |
| MathUtils.TwoArguments | packages/server/lib/db/utils/math.ts:1-7 | For two arguments, min returns `b` only when `b < a`, and max returns `b` only when `b > a`. `bigIntMin(a, b) <= a` and `bigIntMax(0, b) >= 0`. |
| DriverCodecs.BooleanToDriver | packages/server/lib/db/helpers.ts:99-101 | The stored integer is 0 or 1, and is 1 exactly for `true`. Reading it back gives the same boolean. |
| DriverCodecs.BooleanFromDriver | packages/server/lib/db/helpers.ts:102-104 | A stored integer reads as `true` if and only if it is 1. Every other value reads as `false`. |
| DriverCodecs.NatToDecimal | packages/server/lib/db/helpers.ts:114-116 | The decimal text of a natural number is non-empty and all digits, with no leading zero except in `"0"`. |
| DriverCodecs.BigIntToDriver | packages/server/lib/db/helpers.ts:114-116 | `toString()`: a leading `-` appears exactly for negative values, followed by digits with no leading zero. Non-negative values are all digits. |
| DriverCodecs.BigIntFromDriver | packages/server/lib/db/helpers.ts:117-119 | `BigInt(text)` is defined if and only if the text is all digits (the empty text included, read as 0) or a `-` or `+` followed by at least one digit and only digits. Digit text reads as its decimal value, `-d` as minus the value of `d` and `+d` as the value of `d`; a negative result comes only from text that starts with `-`. Every other text is `None`, standing for the SyntaxError. |
| DriverCodecs.DecimalOfNatToDecimal | packages/server/lib/db/helpers.ts:114-119 | The value of the decimal text of `n` is `n`. |
| DriverCodecs.BigIntRoundTrip | packages/server/lib/db/helpers.ts:107-120 | `fromDriver(toDriver(n)) == n` for every integer `n`. |
| DriverCodecs.BigIntToDriverInjective | packages/server/lib/db/helpers.ts:107-120 | Distinct integers are stored as distinct texts. |
| Sorting.SortByKeyCorrect | packages/server/lib/indexer/engine.ts:84-88 | The sort by a (major, minor) key returns a permutation (same multiset) of its input, in ascending key order. |
| Sorting.SortByKeyStable | packages/server/lib/indexer/engine.ts:84-88 | Elements with equal keys keep their input order, as `Array.prototype.sort` is stable. |
| Backoff.ComputeBackoffMs | packages/server/lib/jobrunner/scheduler.ts:64-69 | The delay is at least 500 ms and less than one hour plus one second. It exceeds the one-hour cap by no more than its jitter. The same code appears at `lib/indexer/scheduler.ts:22-27` and `lib/indexer/workers.ts:7-12`. |
| Backoff.BackoffMonotone | packages/server/lib/jobrunner/scheduler.ts:64-69 | Ignoring jitter, the delay never decreases as the attempt count grows. |
| Backoff.BackoffDoubles | packages/server/lib/jobrunner/scheduler.ts:68 | Below the cap, each further attempt doubles the delay. |
| Backoff.BackoffSaturates | packages/server/lib/jobrunner/scheduler.ts:66-68 | From the thirteenth attempt on, the delay is the one-hour cap. |
| Backoff.BackoffBelowCap | packages/server/lib/jobrunner/scheduler.ts:68 | For attempts 1 to 12, the delay is exactly `1000 * 2^(attempts-1)` and below the cap. |
| JobQueue.NewJobDefaults | packages/server/lib/db/schema/sys.ts:27-37 | An inserted job has `tries = 0`, `maxAttempts = 5`, `nextAttemptAt` equal to the insertion time, and no `lastError`, `lockedUntil` or `lockedBy`. It is claimable exactly from its insertion time on. |
| JobQueue.ParkedNeverClaimable | packages/server/lib/jobrunner/scheduler.ts:86-87 | A job at `nextAttemptAt = -1` is claimable at no time. |
| JobQueue.OldestDue | packages/server/lib/jobrunner/scheduler.ts:84-93 | The claim's selection is `None` if and only if no row is claimable. Otherwise it picks a claimable row whose `nextAttemptAt` is least among the claimable rows. On a tie the model picks the earliest inserted; SQLite leaves that order unspecified (see "## Left out"). |
| Lookup.FindByKey | packages/server/lib/jobrunner/scheduler.ts:106-112 | The lookup by primary key, shared by the job and request tables: `None` if and only if no row has the key. Otherwise it returns the first row that has it. |
| JobQueue.FindById | packages/server/lib/jobrunner/scheduler.ts:106-112 | The lookup of a job by id is `None` if and only if no row has the id. Otherwise it returns a row with that id. |
| JobQueue.UpdateWhereId | packages/server/lib/jobrunner/scheduler.ts:130-138 | `UPDATE ... WHERE id = ?` keeps the row count. Rows with the id take the SET list, and every other row is unchanged. |
| JobQueue.DeleteMembers | packages/server/lib/jobrunner/scheduler.ts:37-42 | After `DELETE ... WHERE id = ?`, a row is present if and only if it was present before and has another id. |
| JobQueue.DeleteAbsent | packages/server/lib/jobrunner/scheduler.ts:37-42 | Deleting an id that no row has changes nothing. |
| JobQueue.DeleteOnly | packages/server/lib/indexer/workers.ts:61 | With a primary key, deleting row `i`'s id removes exactly row `i` and keeps the other rows in order. |
| JobQueue.UpdateOneRow | packages/server/lib/jobrunner/scheduler.ts:125 | With a primary key, an update by id changes exactly the one row that has the id. |
| JobQueue.FindByIdUnique | packages/server/lib/db/schema/sys.ts:20-23 | With a primary key, the lookup of row `i`'s id finds row `i`. |
| JobQueue.UpdateKeepsUnique | packages/server/lib/db/schema/sys.ts:20-23 | Updates keep the primary key unique. |
| JobQueue.UpdateKeepsIds | packages/server/lib/db/schema/sys.ts:20-23 | Updates keep ids unique and below the id counter. |
| JobQueue.DeleteRemovesId | packages/server/lib/jobrunner/scheduler.ts:37-42 | After a delete, no row has the deleted id. |
| JobQueue.DeleteKeepsIds | packages/server/lib/db/schema/sys.ts:20-23 | Deletes keep ids unique and below the id counter. |
| JobQueue.DeleteRemovesOne | packages/server/lib/jobrunner/scheduler.ts:37-42 | Deleting an id present under a primary key removes exactly one row. |
| JobQueue.ClaimRows | packages/server/lib/jobrunner/scheduler.ts:76-98 | A claim returns nothing if and only if no row is claimable, and then the table is unchanged. Otherwise it returns the oldest-due claimable row with `lockedUntil`, `lockedBy` and `tries + 1`. That row, as returned, is the only one changed. |
| JobQueue.LeaseExcludes | packages/server/lib/jobrunner/scheduler.ts:88-90 | While its lease runs, a claimed job is not claimable, and a second claim returns some other job or none. |
| JobQueue.SecondClaimFindsNothing | packages/server/lib/jobrunner/scheduler.ts:83-93 | With one claimable job and a positive lease, the first claim succeeds. A second claim at the same time finds nothing. |
| JobRunnerScheduler.EnqueueJob | packages/server/lib/jobrunner/scheduler.ts:9-15 | Appends exactly one row with the given type and payload, the column defaults and a fresh id. The other rows are unchanged, and the key invariant is kept. |
| JobRunnerScheduler.ClaimOneJob | packages/server/lib/jobrunner/scheduler.ts:71-102 | The new table and the result are the claim at `now` with `lockedUntil = now + TTL`. The key invariant is kept. |
| JobRunnerScheduler.FailureRows | packages/server/lib/jobrunner/scheduler.ts:104-141 | A missing job is left alone. Otherwise only that row changes: `lastError` is set, `lockedUntil` is cleared and `tries` is kept. At stored `tries >= maxAttempts` it is parked at -1 and never claimable. Otherwise it is rescheduled at `now + backoff(tries)` with `lockedBy` cleared, and becomes claimable from then on. |
| JobRunnerScheduler.HandleJobFailure | packages/server/lib/jobrunner/scheduler.ts:104-141 | The table becomes the failure update of its old state. |
| JobRunnerScheduler.ReplyRows | packages/server/lib/jobrunner/scheduler.ts:21-62 | An error reply runs the failure handler. A result deletes the job, so exactly the rows with other ids remain. If the delete throws, that row only is parked at -1 with `lockedUntil` cleared and `lockedBy` kept. If the park throws too, or there is neither error nor result, nothing changes. |
| JobRunnerScheduler.OnWorkerMessage | packages/server/lib/jobrunner/scheduler.ts:21-62 | The table becomes the listener's update of its old state. |
| JobRunnerScheduler.SchedulerStep | packages/server/lib/jobrunner/scheduler.ts:143-163 | With no claimable job, nothing is posted and nothing changes. Otherwise the claimed job is posted and stays leased. If posting throws, the failure handler runs on the claimed table at its own clock reading, `failNow`, since it calls `Date.now()` again. |
| JobRunnerScheduler.ExhaustedStaysParked | packages/server/lib/jobrunner/scheduler.ts:118-126 | A job whose tries ran out stays parked at -1 through further failures, with the latest error recorded. |
| JobRunnerScheduler.ClaimThenFailAddsOneTry | packages/server/lib/jobrunner/scheduler.ts:71-141 | A claim followed by a failure raises `tries` by exactly one. The job is parked if and only if the claimed `tries` reached `maxAttempts`. |
| IndexerScheduler.ClaimOneJob | packages/server/lib/indexer/scheduler.ts:29-62 | Select the oldest-due claimable row at `now`, then update it by id with the lease from the second clock reading. The result is the claim, with the key invariant kept. The same claim appears at `lib/indexer/workers.ts:14-47`. |
| IndexerScheduler.FailureRows | packages/server/lib/indexer/scheduler.ts:64-99 | A missing job is left alone. Otherwise only that row changes, with `t = stored tries + 1`. At `t >= maxAttempts` it is parked at -1 with `lockedUntil` cleared and `tries` not written. Otherwise `tries = t`, the job is rescheduled at `now + backoff(t)` with `lockedUntil` cleared, and `lockedBy` is kept. |
| IndexerScheduler.HandleJobFailure | packages/server/lib/indexer/scheduler.ts:64-99 | The table becomes this variant's failure update of its old state. |
| IndexerScheduler.OnWorkerMessage | packages/server/lib/indexer/scheduler.ts:10-18 | An error reply runs the failure handler; anything else changes nothing. |
| IndexerScheduler.SchedulerStep | packages/server/lib/indexer/scheduler.ts:101-122 | With no claimable job, nothing changes. Otherwise the claimed job is posted and deleted at once. If the post throws, or the delete throws, the failure handler runs instead, at its own clock reading `failNow` (it calls `Date.now()` again), and the job counts as posted exactly when the post did not throw. |
| IndexerScheduler.ClaimThenFailAddsTwoTries | packages/server/lib/indexer/scheduler.ts:49-97 | A claim followed by a failure raises `tries` by two on the retry path, keeping the claimer in `lockedBy` and rescheduling at the failure's time plus the backoff. On the park path it raises `tries` by one and parks at -1. |
| IndexerScheduler.LateFailureIsNoOp | packages/server/lib/indexer/scheduler.ts:64-72 | After the post-then-delete at line 113, no row has the job's id, and a failure reported for it later changes nothing. |
| IndexerScheduler.FourOfFiveParks | packages/server/lib/indexer/scheduler.ts:74-84 | A failure at stored tries 4 of 5 parks the job at -1, clears `lockedUntil` and leaves `tries` at 4. |
| IndexerWorkers.InlineFailureRows | packages/server/lib/indexer/workers.ts:62-87 | A missing job is left alone. Otherwise only that row changes, with `t = claimed tries + 1` taken from the row the claim returned. At `t >= maxAttempts` it is parked at -1 with `tries` as stored. Otherwise `tries = t` and the job is rescheduled at `now + backoff(t)`. `lockedUntil` is cleared and `lockedBy` kept in both cases; id, type, payload and `maxAttempts` are unchanged. |
| IndexerWorkers.WorkerStep | packages/server/lib/indexer/workers.ts:49-93 | One iteration is the claim followed by a delete of the job on success, or by the inline failure update when processing or the delete throws. That update's backoff starts from `failNow`, the `Date.now()` read after processing. With no claimable job, nothing changes. |
| IndexerWorkers.SuccessDeletesOnlyThatJob | packages/server/lib/indexer/workers.ts:59-61 | Successful processing removes exactly the claimed job and keeps every other row, in order. |
| IndexerWorkers.ClaimThenFailAddsTwoTries | packages/server/lib/indexer/workers.ts:63-86 | A claim followed by a processing failure raises `tries` by two on the retry path and reschedules at the failure's time plus the backoff. On the park path it raises `tries` by one and parks at -1. |
| IndexerEngine.ToUpperAscii | packages/server/lib/indexer/engine.ts:47 | Upper-casing keeps the length, leaves no lower-case letter and keeps every other character. |
| IndexerEngine.UpperIdempotent | packages/server/lib/indexer/engine.ts:47 | Upper-casing an identifier twice gives the same identifier. |
| IndexerEngine.EventJobType | packages/server/lib/indexer/engine.ts:92 | A job type is the identifier, then `_EVENT_`, then the event name, at the stated positions. |
| IndexerEngine.FileRegistryJobPrefix | packages/server/index.ts:5 | The `FSFileRegistry` indexer names its jobs `FSFILEREGISTRY_EVENT_<name>`, the prefix the event worker dispatches on. |
| IndexerEngine.ReadCheckpoint | packages/server/lib/indexer/engine.ts:13-34 | An existing checkpoint is returned and the table is unchanged. A missing one is inserted at `DEFAULT_START_BLOCK` and returned. Other contracts' rows are untouched. |
| IndexerEngine.UpdateCheckpointRows | packages/server/lib/indexer/engine.ts:36-44 | The update sets the contract's height if its row exists. The table's keys and other rows are unchanged, and with no row nothing changes. |
| IndexerEngine.GetCheckpoint | packages/server/lib/indexer/engine.ts:13-34 | The new table and the height are the read-or-create of the old table. |
| IndexerEngine.UpdateCheckpoint | packages/server/lib/indexer/engine.ts:36-44 | The new table is the update of the old one. |
| IndexerEngine.SafeLatest | packages/server/lib/indexer/engine.ts:53 | The safe head is `max(0, latest - 6)`: never negative, at least `latest - 6`, and either 0 or `latest - 6`. |
| IndexerEngine.ScanRange | packages/server/lib/indexer/engine.ts:55-74 | No range if and only if the safe head is not past the checkpoint. Otherwise `from = max(0, checkpoint + 1)` and `checkpoint < from <= to <= safe head`. The range covers at most 200 blocks, and it either ends at the safe head or covers exactly 200. |
| IndexerEngine.SortLogs | packages/server/lib/indexer/engine.ts:84-88 | The sorted logs are a permutation of the fetched logs, ascending by (blockNumber, logIndex) with a missing index read as 0. |
| IndexerEngine.SortLogsStable | packages/server/lib/indexer/engine.ts:84-88 | Logs with equal keys keep the provider's order. |
| IndexerEngine.EventJobs | packages/server/lib/indexer/engine.ts:90-95 | One new job per log, in order: job `i` has the next id, type `<IDENTIFIER>_EVENT_<eventName>`, log `i` as its payload, and the column defaults. |
| IndexerEngine.EnqueueLogs | packages/server/lib/indexer/engine.ts:90-95 | The insert loop appends exactly those jobs and advances the id counter by the number of logs, keeping the key invariant. |
| IndexerEngine.Cycle | packages/server/lib/indexer/engine.ts:49-102 | When the missing checkpoint row cannot be inserted, the cycle fails and nothing changes. Otherwise the checkpoint exists afterwards and never decreases; other contracts' checkpoints are untouched. The cycle is idle if and only if the safe head is not past the checkpoint. It scans if and only if it gets past both provider calls with a range to scan and none of its writes throws; in every other case it fails. A cycle that does not scan keeps the height. Before the writes nothing is enqueued; once the cycle reaches them, the jobs gain exactly as many rows after the existing ones as job inserts complete. A scan covers `ScanRange`, appends one job per fetched log, and moves the checkpoint to `to`, strictly above its old value. |
| IndexerEngine.RunCycle | packages/server/lib/indexer/engine.ts:50-102 | The loop body's new tables and outcome are the cycle of the old tables, for the same provider results and the same failing write. The key invariant is kept. |
| IndexerEngine.WriteLogs | packages/server/lib/indexer/engine.ts:90-97 | The insert loop and the checkpoint update, stopped by the write that throws, leave the tables and outcome `WriteBatch` gives. The key invariant is kept. |
| IndexerEngine.EventJobsPrefix | packages/server/lib/indexer/engine.ts:90-95 | The rows inserted for the first `k` logs are the first `k` rows the whole loop would insert. |
| IndexerEngine.FailedWriteKeepsPrefix | packages/server/lib/indexer/engine.ts:90-102 | When a write after the fetch throws, the cycle fails, the checkpoint stays at its old height, and the jobs already inserted stay: those for a prefix of the sorted logs, all of them when only `updateCheckpoint` throws. |
| IndexerEngine.RetryAfterFailedWriteRequeues | packages/server/lib/indexer/engine.ts:50-102 | After such a failure, a retry with the same head and logs scans the same range and enqueues every log again, after the rows the failed cycle kept; those logs are then enqueued twice. |
| IndexerEngine.ScanEnqueuesEachLog | packages/server/lib/indexer/engine.ts:84-95 | The jobs a scan adds carry exactly the fetched logs, each once, in (blockNumber, logIndex) order. Each is typed by its event, has consecutive fresh ids and is claimable from `now` with `tries = 0`. |
| IndexerEngine.CycleKeepsJobsValid | packages/server/lib/indexer/engine.ts:90-95 | A cycle keeps job ids unique and below the id counter. |
| IndexerEngine.ScansAreContiguous | packages/server/lib/indexer/engine.ts:62-97 | Two scans in a row cover adjacent ranges: the second starts at the block after the first one's end, so no block is skipped or scanned twice. |
| IndexerEngine.FailedCycleOnlyBacksOff | packages/server/lib/indexer/engine.ts:98-102 | A cycle that fails on a provider call changes neither the tables nor the checkpoint, and sleeps 5000 ms. |
| IndexerEngine.ScanRangeExample | packages/server/lib/indexer/engine.ts:62-74 | With the checkpoint at 100 and the head at 110, the scan covers 101 to 104, and once at 104 nothing is scanned. From the default start block, the range covers 200 blocks. |
| IndexerEngine.CycleAsWritten | packages/server/lib/indexer/engine.ts:90-97 | As written, the cycle writes no job, so no job insert can throw. It advances the checkpoint and reports the same outcome as the corrected cycle under the same faults other than job inserts. |
| IndexerEngine.AsWrittenCycleLosesLog | packages/server/lib/indexer/engine.ts:90-97 | As written, a log of block 102 is fetched, no job is written and the checkpoint moves to 104. Every later range starts after block 102, so the log is never enqueued. The corrected cycle enqueues it. |
| ShareSchema.NewApproval | packages/server/lib/db/schema/shareCapability.ts:26-28 | A new approval is inactive, with no last block and no last transaction. |
| ShareSchema.InsertApproval | packages/server/lib/db/schema/shareCapability.ts:17-35 | An insert is refused if and only if the (recipient, sender) pair exists or either wallet has no `users` row, the two columns being foreign keys and `lib/db/client.ts:8` turning foreign keys on. Otherwise it appends the new row, keeping the pair index unique. |
| ShareSchema.ActionFromText | packages/server/lib/db/schema/shareCapability.ts:49 | Only `ENABLED` and `REVOKED` decode, and they decode to the action that prints as that text. |
| ShareSchema.ActionRoundTrip | packages/server/lib/db/schema/shareCapability.ts:49 | Every action round-trips through its text. |
| ShareSchema.InsertHistory | packages/server/lib/db/schema/shareCapability.ts:58-61 | An insert is refused if and only if (txHash, blockNumber) is already recorded. Otherwise it appends, keeping that index unique. |
| ShareSchema.StatusFromText | packages/server/lib/db/schema/shareCapability.ts:75-78 | Exactly the five enum texts decode, each to the status that prints as it. |
| ShareSchema.StatusRoundTrip | packages/server/lib/db/schema/shareCapability.ts:75-78 | Every status round-trips through its text, and distinct statuses have distinct texts. |
| ShareSchema.NewRequest | packages/server/lib/db/schema/shareCapability.ts:66-80 | A request inserted without a status is PENDING and carries the given wallets, message, metadata and creation time. |
| EventWorker.IndexOf | packages/server/lib/indexer/worker.ts:31 | `indexOf` finds the first position at which the pattern occurs, or `None` if it occurs nowhere. |
| EventWorker.EventNameIsSuffix | packages/server/lib/indexer/worker.ts:30-31 | For a type with the prefix, `replace(prefix, "")` is the type with the prefix cut off. |
| EventWorker.StatementFor | packages/server/lib/indexer/worker.ts:30-46 | A statement is built only for a prefixed type. For a prefixed type it is built if and only if the event name is `SenderApproved` (active) or `SenderRevoked` (inactive). With a log payload it writes the log's block and transaction hash; otherwise those keys are omitted. |
| EventWorker.UpdateAll | packages/server/lib/indexer/worker.ts:34 | An UPDATE with no WHERE applies the SET list to every row and keeps the row count. |
| EventWorker.ProcessJob | packages/server/lib/indexer/worker.ts:25-48 | The approvals become the processed rows of the old ones, and the pair index is kept. |
| EventWorker.OnlyPrefixActs | packages/server/lib/indexer/worker.ts:30 | A job type without `FSFILEREGISTRY_EVENT_` changes nothing. |
| EventWorker.OtherEventsChangeNothing | packages/server/lib/indexer/worker.ts:33-47 | A prefixed event other than the two approval events changes nothing. |
| EventWorker.ApprovalEventOverwrites | packages/server/lib/indexer/worker.ts:33-46 | `SenderApproved` / `SenderRevoked` with a log sets every approval active / inactive at the log's block and transaction. Each row keeps its id and wallets. |
| EventWorker.ProcessIdempotent | packages/server/lib/indexer/worker.ts:33-46 | Processing a job twice has the effect of processing it once. |
| EventWorker.LastEventWins | packages/server/lib/indexer/worker.ts:33-46 | Of two approval events, when the second has a log payload, the second alone decides the state. |
| EventWorker.ProcessingKeepsPairs | packages/server/lib/db/schema/shareCapability.ts:32-35 | Processing keeps the (recipient, sender) pairs unique. |
| EventWorker.ProcessedRowsAsWritten | packages/server/lib/indexer/worker.ts:33-46 | As written, the approvals are unchanged whatever the job. |
| EventWorker.AsWrittenApprovalIgnored | packages/server/lib/indexer/worker.ts:33-39 | As written, a `SenderApproved` job leaves an inactive approval inactive. The corrected worker activates it at the log's block. |
| RequestRoutes.Truncate | packages/server/api/routes/requests/index.ts:31 | `slice(0, n)` returns a prefix of at most `n` characters, and the whole text when it is short enough. |
| RequestRoutes.CreateError | packages/server/api/routes/requests/index.ts:17-35 | A missing, empty or invalid recipient gives 400, and so does a request to oneself. Past those checks, a missing message gives 500, because `toString()` throws, and so does a caller with no `users` row, because the insert violates the sender's foreign key (`lib/db/client.ts:8`, `lib/db/schema/shareCapability.ts:71-73`). No error occurs if and only if all four checks pass. |
| RequestRoutes.CreateRequest | packages/server/api/routes/requests/index.ts:12-45 | On an error, including the refused insert of an unregistered sender, the reply carries its code and neither table changes. On success, the reply is 201 with the new row: PENDING, checksummed wallets, message cut to 500 characters. Exactly that row is inserted, and exactly one `NOTIFY:request:created` job carrying its id is enqueued. |
| RequestRoutes.CreatedRowIsPending | packages/server/api/routes/requests/index.ts:26-35 | A created request is PENDING and its message is a prefix of at most 500 characters. Its id is new to the table. |
| RequestRoutes.PendingRows | packages/server/api/routes/requests/index.ts:47-55 | The filter keeps exactly the rows addressed to the caller with status PENDING: each such row as often as in the table, every other row never. |
| RequestRoutes.PendingListCorrect | packages/server/api/routes/requests/index.ts:47-57 | The pending list holds exactly the caller's pending requests, each as often as in the table, ordered by `createdAt`. |
| RequestRoutes.ListPending | packages/server/api/routes/requests/index.ts:46-60 | The reply is 200 with the pending list for the caller's stored address. |
| RequestRoutes.FindRequest | packages/server/api/routes/requests/index.ts:65-70 | The lookup of a request by id is `None` if and only if no request has the id. Otherwise it finds one that has it. |
| RequestRoutes.CancelError | packages/server/api/routes/requests/index.ts:62-79 | Errors come in the handler's order: 400 without an id, 404 for an unknown id, 403 unless the caller is the checksummed sender as read back, 409 unless the request is PENDING. With no error, the request exists and is PENDING. |
| RequestRoutes.SetStatusWhereId | packages/server/api/routes/requests/index.ts:81-86 | The update sets the status of the rows with that id and leaves every other row unchanged. |
| RequestRoutes.CancelRequest | packages/server/api/routes/requests/index.ts:61-96 | On an error, the reply carries its code and nothing changes. On success the request is set to CANCELLED, one `request:cancelled` job with the id as JSON text is enqueued, and the reply is 200. |
| RequestRoutes.CancelChangesOneRow | packages/server/api/routes/requests/index.ts:81-86 | A successful cancel changes exactly the status of the one request, to CANCELLED. |
| RequestRoutes.CancelTwiceConflicts | packages/server/api/routes/requests/index.ts:77-86 | Cancelling the same request a second time is a 409. |
| RequestRoutes.CancelledNotPending | packages/server/api/routes/requests/index.ts:47-86 | A cancelled request is in no one's pending list. |
| AuthMiddleware.Authenticate | packages/server/api/middleware/auth.ts:17-56 | These cases give 401 and leave the consumed set unchanged: a missing header, a malformed signature or address, a used signature, or a timestamp that is not a number or is `<= 0`. A timestamp more than 6000 ms old gives 408, also unchanged. Otherwise the signature is consumed first. The request is then authorized as the claimed address if and only if the signature verifies over `Filosign\n<addr>\n<ts>`, and gets 401 otherwise. |
| AuthMiddleware.AuthSigned | packages/server/api/middleware/auth.ts:13-59 | The new ledger and the outcome are `Authenticate` of the old ledger. |
| AuthMiddleware.AuthorizedMeansSigned | packages/server/api/middleware/auth.ts:28-56 | An authorized request had an unused signature and a fresh, positive timestamp. Its signature verifies over its own address and timestamp, and `userWallet` is its claimed address. |
| AuthMiddleware.ReplayRefused | packages/server/api/middleware/auth.ts:28-44 | Once a request consumed a signature, any later request with it gets 401 and changes nothing. |
| AuthMiddleware.LedgerOnlyGrows | packages/server/api/middleware/auth.ts:22-44 | The ledger changes only by consuming the request's own signature. |
| AuthMiddleware.SignedMessageInjective | packages/server/api/middleware/auth.ts:43 | For addresses without a line break, equal signed messages mean equal addresses and timestamps. |
| AuthMiddleware.AuthenticateAsWritten | packages/server/api/middleware/auth.ts:46-54 | As written, every request that passes the pre-checks is authorized, whatever the signature. The ledger is as in the corrected middleware. |
| AuthMiddleware.AsWrittenAcceptsForgery | packages/server/api/middleware/auth.ts:46-54 | As written, a signature the verifier rejects is accepted. It is refused once verification is awaited. |
| AuthRoutes.IssueChallenge | packages/server/api/routes/auth/index.ts:21-42 | A missing or invalid wallet gives 400 and leaves the store unchanged. Otherwise the wallet's entry becomes the new message, valid until `now + 300000`, replacing any earlier one. Every other entry is kept. |
| AuthRoutes.VerifyChallenge | packages/server/api/routes/auth/index.ts:44-77 | A missing signature or an invalid wallet gives 400 before the store is touched. Otherwise the wallet's entry is removed. A token `issueJwtToken(wallet)` is issued if and only if the entry existed, had not expired and its signature verifies; every other case gives 400. |
| AuthRoutes.GetMessage | packages/server/api/routes/auth/index.ts:21-42 | The store and the reply are `IssueChallenge` of the old store. |
| AuthRoutes.Verify | packages/server/api/routes/auth/index.ts:44-77 | The store and the reply are `VerifyChallenge` of the old store. |
| AuthRoutes.ChallengeUsedOnce | packages/server/api/routes/auth/index.ts:55-60 | After a verify reached the store, the wallet has no challenge, and its next verify gives 400 until a new challenge is issued. |
| AuthRoutes.ChallengeExpiry | packages/server/api/routes/auth/index.ts:38-60 | A challenge issued at `t` and answered with an accepted signature yields a token if and only if `now <= t + 300000`. |
| AuthRoutes.VerifyLeavesOthers | packages/server/api/routes/auth/index.ts:55-56 | A verify leaves every other wallet's challenge in place. |

## Left out

- The infinite `while (true)` loops and their sleeps. Each loop body is one method. The indexer's sleep is the `SleepMs` of the cycle's outcome; the schedulers' 2000 ms and 8000 ms sleeps and the workers' 500 ms and 2000 ms sleeps are not modelled.
- IndexerWorkers.WorkerStep takes the job's outcome as a parameter. `lib/indexer/workers.ts:59` calls `processJob`, which that file neither imports nor defines, so as written every call throws a ReferenceError and takes the inline-failure branch; the success branch is unreachable there.
- The Web Worker channel (`postMessage` and the `message` listener). The executor's reply is an abstract `WorkerReply` or outcome, and `postMessage` throwing is a parameter.
- Concurrency. Each database transaction is one atomic method, so an interleaving of claims by two processes is not modelled.
- Inner failures as flags only. A failure of the claim itself and the catch around it in each scheduler are not modelled. Nor is a failed `handleJobFailure` whose error is only logged (`lib/jobrunner/scheduler.ts:27-30`). The listener's failed delete and failed park are flags.
- The chain provider (`getBlockNumber`, `getLogs`) and strict ABI decoding. The head and the logs are parameters, with `None` where the call throws. Logs carry only the fields the core reads.
- `JOB_LOCK_TTL_MS` and `DEFAULT_MAX_JOB_ATTEMPTS`. They are read from the indexer config but not defined there. The lease length is the parameter `lockTtlMs`; `maxAttempts` is NOT NULL with default 5, so its fallback is never reached. As shipped, the undefined TTL makes the lease `now + undefined`, which is NaN and is stored as NULL, so `lockedUntil IS NULL` keeps a claimed job claimable and the job runner's loop claims and posts it again at once. JobQueue.LeaseExcludes and JobQueue.SecondClaimFindsNothing hold only for a defined TTL.
- `Bun.randomUUIDv7()`. Ids are per-table counters, and their text form is not modelled.
- The `timestamps` columns (`createdAt`, `updatedAt`, `deletedAt`) of `lib/db/helpers.ts`. They are not modelled, except a request's `createdAt`, which is the `now` of its insert.
- `tEvmAddress`, `tHash` and `tJsonString` column types. Addresses are stored as the uninterpreted `getAddress` of their text. `tHash` is imported by the share schema, but `lib/db/helpers.ts` does not define it. JSON payloads and `metadata` are opaque values.
- DriverCodecs.BigIntFromDriver models decimal text with an optional sign only. `BigInt` also accepts surrounding whitespace and hex, octal and binary literals; these are not modelled.
- AuthMiddleware.ParseTimestamp reads the timestamp header as decimal integer text. `Number(...)` also accepts fractions, exponents, hex and whitespace. Those forms are rejected with 401 in the model, and so is `Infinity`. Float precision of large timestamps is not modelled.
- IndexerEngine.ToUpperAscii upper-cases ASCII letters only. `toUpperCase` also maps non-ASCII letters; the contract names are ASCII.
- Message and header text is plain `seq<char>`. UTF-16 code units, which `slice(0, 500)` counts, are not distinguished.
- RequestRoutes.CreateRequest takes `message` as a string or absent. `toString()` of a non-string JSON value is not modelled.
- JobQueue.OldestDue breaks ties in `ORDER BY nextAttemptAt LIMIT 1` by taking the earliest inserted row. SQLite leaves the order of equal keys unspecified (`lib/jobrunner/scheduler.ts:83-92`, `lib/indexer/scheduler.ts:41-44`); the tie-break is a choice of the model.
- RequestRoutes.PendingList keeps table order among requests with the same `createdAt`. SQLite leaves that order of `ORDER BY createdAt` unspecified (`api/routes/requests/index.ts:56`); the tie-break is a choice of the model.
- Database reads that throw. A failing select is not modelled; the failing writes are the insert of a missing checkpoint, the job inserts and the checkpoint update of the indexer cycle, and the insert of a share request.
- Addresses in returned rows. A select passes each address column through `getAddress` again (`tEvmAddress.fromDriver`); the rows the routes return carry the stored text, which is the same for a checksummed address.
- The in-place `logs.sort` is modelled on values. The sorted sequence is a function of the fetched one, and the aliasing of the provider's array is not modelled.
- EIP-4361 message building, nonce generation, signature recovery and JWT issuance. These are uninterpreted functions and inputs.
- Hono routing, JSON body parsing and response formatting. A reply is a status code with its body.

## Findings

| source | as written | input that shows it | evidently intended | confidence | as-written member | corrected member |
|---|---|---|---|---|---|---|
| packages/server/lib/indexer/engine.ts:90-97 | The insert builder in the loop is neither awaited nor `.run()`, so no job row is written, while `updateCheckpoint` is awaited and advances the checkpoint. | Checkpoint 100, head 110, one log at block 102: scan 101-104, no job, checkpoint 104. Later scans start at 105, so the log is lost. | One `pending_jobs` row per fetched log, then the checkpoint advance. | not executed | IndexerEngine.CycleAsWritten | IndexerEngine.Cycle |
| packages/server/lib/indexer/worker.ts:33-46 | `db.update(shareApprovals).set(...)` is neither awaited nor `.run()`, so approvals never change. The update has no WHERE clause either. | An inactive approval and a `FSFILEREGISTRY_EVENT_SenderApproved` job with a log at block 42: the approval stays inactive. | The approval update is executed, setting `active`, `lastChangedBlock` and `lastTxHash`. | not executed | EventWorker.ProcessedRowsAsWritten | EventWorker.ProcessedRows |
| packages/server/api/middleware/auth.ts:46-54 | `verifyMessage` returns a Promise that is not awaited. A Promise is truthy, so `!valid` is never true and any signature passes. | Headers with signature `0xsig`, address `0xaddr`, timestamp `7` at time 7, and a verifier that rejects the signature: authorized. | `await verifyMessage(...)`, with 401 on a signature that does not verify. | not executed | AuthMiddleware.AuthenticateAsWritten | AuthMiddleware.Authenticate |
