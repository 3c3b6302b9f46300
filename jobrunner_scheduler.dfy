/**
 * lib/jobrunner/scheduler.ts: the job queue with an atomic conditional-UPDATE claim.
 * It covers `enqueueJob`, `claimOneJob`, `handleJobFailure` (which reads the stored
 * `tries` and does not increment it), the listener for worker replies (delete on
 * success, park if the delete fails) and one iteration of `startJobScheduler`.
 * The Web Worker channel is replaced by an abstract reply; clocks and the random
 * jitter are parameters; each transaction is one atomic method.
 */
module JobRunnerScheduler {
  import opened Wrappers
  import opened SysSchema
  import opened JobQueue
  import opened Backoff

  /** `enqueueJob({ type, payload })`: insert one row with the column defaults. */
  method EnqueueJob(jobs: PendingJobs, jobType: string, payload: Payload, now: Millis) returns (id: JobId)
    requires jobs.Valid()
    modifies jobs
    ensures jobs.Valid()
    ensures id == old(jobs.nextId) && jobs.nextId == id + 1
    ensures jobs.rows == old(jobs.rows) + [NewJob(id, jobType, payload, now)]
  {
    id := jobs.nextId;
    jobs.rows := jobs.rows + [NewJob(id, jobType, payload, now)];
    jobs.nextId := id + 1;
  }

  /**
   * `claimOneJob`: one conditional UPDATE whose WHERE picks the oldest-due claimable
   * row; `lockedUntil = now + JOB_LOCK_TTL_MS`, `lockedBy = workerId`, `tries + 1`.
   */
  method ClaimOneJob(jobs: PendingJobs, workerId: string, now: Millis, lockTtlMs: nat) returns (claimed: Option<Job>)
    requires jobs.Valid()
    modifies jobs
    ensures jobs.Valid() && jobs.nextId == old(jobs.nextId)
    ensures (jobs.rows, claimed) == ClaimRows(old(jobs.rows), now, now + lockTtlMs, workerId)
  {
    var r := ClaimRows(jobs.rows, now, now + lockTtlMs, workerId);
    if r.1.Some? {
      UpdateKeepsIds(jobs.rows, jobs.rows[OldestDue(jobs.rows, now).value].id,
                     LeaseSet(jobs.rows[OldestDue(jobs.rows, now).value], now + lockTtlMs, workerId), jobs.nextId);
    }
    jobs.rows, claimed := r.0, r.1;
  }

  /** The SET list of `handleJobFailure` for a stored row `job`. */
  function FailureSet(job: Job, errMsg: string, now: Millis, jitter: Jitter): JobSet
  {
    if job.tries >= job.maxAttempts then
      NO_CHANGE.(lastError := Some(Some(errMsg)), nextAttemptAt := Some(PERMANENTLY_FAILED), lockedUntil := Some(None))
    else
      NO_CHANGE.(lastError := Some(Some(errMsg)), nextAttemptAt := Some(now + ComputeBackoffMs(job.tries, jitter)),
                 lockedUntil := Some(None), lockedBy := Some(None))
  }

  /**
   * `handleJobFailure(jobId, errMsg)`: a missing job is left alone; a job whose stored
   * `tries` reached `maxAttempts` is parked for good; any other is rescheduled after
   * the backoff for its stored `tries` with its lease released. `tries` is not written.
   */
  function FailureRows(rows: seq<Job>, jobId: JobId, errMsg: string, now: Millis, jitter: Jitter): (r: seq<Job>)
    ensures FindById(rows, jobId).None? ==> r == rows
    ensures UniqueIds(rows) && FindById(rows, jobId).Some? ==> (
      var i := FindById(rows, jobId).value;
      var j := rows[i];
      && |r| == |rows|
      && (forall k :: 0 <= k < |rows| && k != i ==> r[k] == rows[k])
      && r[i].id == j.id && r[i].jobType == j.jobType && r[i].payload == j.payload
      && r[i].tries == j.tries && r[i].maxAttempts == j.maxAttempts
      && r[i].lastError == Some(errMsg) && r[i].lockedUntil.None?
      && (j.tries >= j.maxAttempts ==>
            r[i].nextAttemptAt == PERMANENTLY_FAILED && r[i].lockedBy == j.lockedBy
            && forall t :: !Claimable(r[i], t))
      && (j.tries < j.maxAttempts ==>
            r[i].nextAttemptAt == now + ComputeBackoffMs(j.tries, jitter) && r[i].lockedBy.None?
            && now + 500 <= r[i].nextAttemptAt < now + CAP_MS + 1000
            && forall t :: Claimable(r[i], t) <==> r[i].nextAttemptAt <= t))
  {
    match FindById(rows, jobId)
    case None => rows
    case Some(i) => UpdateWhereId(rows, rows[i].id, FailureSet(rows[i], errMsg, now, jitter))
  }

  method HandleJobFailure(jobs: PendingJobs, jobId: JobId, errMsg: string, now: Millis, jitter: Jitter)
    requires jobs.Valid()
    modifies jobs
    ensures jobs.Valid() && jobs.nextId == old(jobs.nextId)
    ensures jobs.rows == FailureRows(old(jobs.rows), jobId, errMsg, now, jitter)
  {
    var found := FindById(jobs.rows, jobId);
    if found.Some? {
      UpdateKeepsIds(jobs.rows, jobId, FailureSet(jobs.rows[found.value], errMsg, now, jitter), jobs.nextId);
    }
    jobs.rows := FailureRows(jobs.rows, jobId, errMsg, now, jitter);
  }

  /** What the executor posts back: `{ id, result, error }`, reduced to whether each is truthy. */
  datatype WorkerReply = WorkerReply(id: JobId, result: bool, error: Option<string>)

  predicate HasError(reply: WorkerReply)
  {
    reply.error.Some? && reply.error.value != ""
  }

  /** The SET list used when deleting a completed job fails. */
  const PARK_SET: JobSet := NO_CHANGE.(nextAttemptAt := Some(PERMANENTLY_FAILED), lockedUntil := Some(None))

  /**
   * The `message` listener: an error goes to `handleJobFailure`; otherwise a result
   * deletes the job; if that delete throws, the job is parked at -1 with its lock
   * cleared; if that update throws too, nothing changes.
   */
  function ReplyRows(rows: seq<Job>, reply: WorkerReply, now: Millis, jitter: Jitter, deleteFails: bool, parkFails: bool): (r: seq<Job>)
    ensures HasError(reply) ==> r == FailureRows(rows, reply.id, reply.error.value, now, jitter)
    ensures !HasError(reply) && reply.result && !deleteFails ==>
      (forall j :: j in r <==> j in rows && j.id != reply.id)
    ensures !HasError(reply) && reply.result && deleteFails && !parkFails && UniqueIds(rows) && FindById(rows, reply.id).Some? ==>
      var i := FindById(rows, reply.id).value;
      r == rows[i := rows[i].(nextAttemptAt := PERMANENTLY_FAILED, lockedUntil := None)]
    ensures !HasError(reply) && (!reply.result || (deleteFails && parkFails)) ==> r == rows
  {
    if HasError(reply) then FailureRows(rows, reply.id, reply.error.value, now, jitter)
    else if reply.result then
      if !deleteFails then
        DeleteMembers(rows, reply.id);
        DeleteWhereId(rows, reply.id)
      else if !parkFails then UpdateWhereId(rows, reply.id, PARK_SET)
      else rows
    else rows
  }

  method OnWorkerMessage(jobs: PendingJobs, reply: WorkerReply, now: Millis, jitter: Jitter, deleteFails: bool, parkFails: bool)
    requires jobs.Valid()
    modifies jobs
    ensures jobs.Valid() && jobs.nextId == old(jobs.nextId)
    ensures jobs.rows == ReplyRows(old(jobs.rows), reply, now, jitter, deleteFails, parkFails)
  {
    if HasError(reply) {
      HandleJobFailure(jobs, reply.id, reply.error.value, now, jitter);
    } else if reply.result {
      if !deleteFails {
        DeleteKeepsIds(jobs.rows, reply.id, jobs.nextId);
        jobs.rows := DeleteWhereId(jobs.rows, reply.id);
      } else if !parkFails {
        UpdateKeepsIds(jobs.rows, reply.id, PARK_SET, jobs.nextId);
        jobs.rows := UpdateWhereId(jobs.rows, reply.id, PARK_SET);
      }
    }
  }

  /**
   * One iteration of `startJobScheduler`: claim a job; with none, sleep. Otherwise
   * `postMessage` it to the executor; if posting throws with `postError`, run the
   * failure handler, whose own `Date.now()` reads `failNow`. The job stays leased
   * until the executor's reply arrives.
   */
  method SchedulerStep(jobs: PendingJobs, workerId: string, now: Millis, lockTtlMs: nat,
                       postError: Option<string>, failNow: Millis, jitter: Jitter) returns (posted: Option<Job>)
    requires jobs.Valid()
    modifies jobs
    ensures jobs.Valid() && jobs.nextId == old(jobs.nextId)
    ensures var (claimedRows, claimed) := ClaimRows(old(jobs.rows), now, now + lockTtlMs, workerId);
      && (claimed.None? ==> posted.None? && jobs.rows == old(jobs.rows))
      && (claimed.Some? && postError.None? ==> posted == claimed && jobs.rows == claimedRows)
      && (claimed.Some? && postError.Some? ==>
            posted.None? && jobs.rows == FailureRows(claimedRows, claimed.value.id, postError.value, failNow, jitter))
  {
    var claimed := ClaimOneJob(jobs, workerId, now, lockTtlMs);
    posted := None;
    if claimed.Some? {
      if postError.Some? {
        HandleJobFailure(jobs, claimed.value.id, postError.value, failNow, jitter);
      } else {
        posted := claimed;
      }
    }
  }

  /** A job parked because its tries ran out stays parked whatever failure is reported next. */
  lemma ExhaustedStaysParked(rows: seq<Job>, i: nat, e1: string, e2: string, t1: Millis, t2: Millis, j1: Jitter, j2: Jitter)
    requires UniqueIds(rows) && i < |rows| && rows[i].tries >= rows[i].maxAttempts
    ensures var id := rows[i].id;
      var after := FailureRows(FailureRows(rows, id, e1, t1, j1), id, e2, t2, j2);
      after[i].nextAttemptAt == PERMANENTLY_FAILED && after[i].lastError == Some(e2)
  {
    var id := rows[i].id;
    FindByIdUnique(rows, i);
    var once := FailureRows(rows, id, e1, t1, j1);
    UpdateOneRow(rows, i, FailureSet(rows[i], e1, t1, j1));
    UpdateKeepsUnique(rows, id, FailureSet(rows[i], e1, t1, j1));
    FindByIdUnique(once, i);
    UpdateOneRow(once, i, FailureSet(once[i], e2, t2, j2));
  }

  /**
   * Claim followed by failure, in this variant: the claim adds one try and the
   * failure adds none, so a job that fails every time is claimed `maxAttempts` times.
   */
  lemma ClaimThenFailAddsOneTry(rows: seq<Job>, now: Millis, lockTtlMs: nat, workerId: string, errMsg: string, jitter: Jitter)
    requires UniqueIds(rows) && ClaimRows(rows, now, now + lockTtlMs, workerId).1.Some?
    ensures var (claimedRows, claimed) := ClaimRows(rows, now, now + lockTtlMs, workerId);
      var i := OldestDue(rows, now).value;
      var after := FailureRows(claimedRows, claimed.value.id, errMsg, now, jitter);
      && after[i].tries == rows[i].tries + 1
      && (after[i].nextAttemptAt == PERMANENTLY_FAILED <==> rows[i].tries + 1 >= rows[i].maxAttempts)
  {
    var (claimedRows, claimed) := ClaimRows(rows, now, now + lockTtlMs, workerId);
    var i := OldestDue(rows, now).value;
    UpdateKeepsUnique(rows, rows[i].id, LeaseSet(rows[i], now + lockTtlMs, workerId));
    FindByIdUnique(claimedRows, i);
    UpdateOneRow(claimedRows, i, FailureSet(claimedRows[i], errMsg, now, jitter));
  }
}
