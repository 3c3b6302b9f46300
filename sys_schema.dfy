/**
 * The system tables of lib/db/schema/sys.ts: the per-contract indexer checkpoint
 * and the pending-job queue, with the column defaults the inserts rely on.
 * Ids come from `Bun.randomUUIDv7()`, which is unique and increases within a process;
 * the model draws them from a per-table counter, `nextId`.
 */
module SysSchema {
  import opened Wrappers

  type JobId = nat

  /** Milliseconds since the epoch, as `Date.now()` returns them. */
  type Millis = nat

  /** A decoded log as the chain provider returns it, reduced to the fields the core reads. */
  datatype Log = Log(blockNumber: int, logIndex: Option<int>, transactionHash: string, eventName: string)

  /** The JSON `payload` column, for the payloads the core writes. */
  datatype Payload =
    | EventLog(log: Log)              // the indexer stores the raw log
    | RequestRef(requestId: nat)      // `{ requestId }`
    | RequestRefText(requestId: nat)  // `JSON.stringify({ requestId })`, a JSON string

  /** A row of `pending_jobs`; `lastError`, `lockedUntil` and `lockedBy` are nullable. */
  datatype Job = Job(
    id: JobId,
    jobType: string,
    payload: Payload,
    tries: nat,
    maxAttempts: int,
    nextAttemptAt: int,
    lastError: Option<string>,
    lockedUntil: Option<int>,
    lockedBy: Option<string>)

  const DEFAULT_TRIES: nat := 0
  const DEFAULT_MAX_ATTEMPTS: int := 5

  /** The `nextAttemptAt` value that marks a job as permanently failed. */
  const PERMANENTLY_FAILED: int := -1

  /** The row an insert of `{ type, payload }` produces: every other column takes its default. */
  function NewJob(id: JobId, jobType: string, payload: Payload, now: Millis): Job
  {
    Job(id, jobType, payload, DEFAULT_TRIES, DEFAULT_MAX_ATTEMPTS, now, None, None, None)
  }

  /** `id` is the primary key of `pending_jobs`. */
  predicate UniqueIds(rows: seq<Job>)
  {
    forall i, j :: 0 <= i < j < |rows| ==> rows[i].id != rows[j].id
  }

  predicate IdsBelow(rows: seq<Job>, bound: nat)
  {
    forall i :: 0 <= i < |rows| ==> rows[i].id < bound
  }

  /** The `pending_jobs` table, rows in insertion (rowid) order. */
  class PendingJobs {
    var rows: seq<Job>
    var nextId: JobId

    ghost predicate Valid()
      reads this
    {
      UniqueIds(rows) && IdsBelow(rows, nextId)
    }

    constructor ()
      ensures Valid() && rows == [] && nextId == 0
    {
      rows := [];
      nextId := 0;
    }
  }

  /** A row of `indexer_checkpoints`. */
  datatype Checkpoint = Checkpoint(identifier: string, blockHeight: int)

  /**
   * The `indexer_checkpoints` table. `identifier` is its primary key, so the table is a
   * map from identifier to the required `blockHeight`: at most one row per contract.
   */
  class IndexerCheckpoints {
    var rows: map<string, int>

    constructor ()
      ensures rows == map[]
    {
      rows := map[];
    }
  }
}
