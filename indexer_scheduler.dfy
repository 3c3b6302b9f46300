/**
 * lib/indexer/scheduler.ts, the scheduler that packages/server/index.ts starts.
 * Its claim selects the oldest-due claimable row and then updates it by id inside one
 * transaction, reading the clock a second time for the lease. Its failure handler
 * writes `tries = stored + 1`, so a claim and a failure together add two tries. Its
 * loop deletes a job as soon as it has been posted to the executor.
 */
module IndexerScheduler {
  import opened Wrappers
  import opened SysSchema
  import opened JobQueue
  import opened Backoff

  /**
   * `claimOneJob`: SELECT the eligible row first in `nextAttemptAt` order at `now`, then
   * UPDATE it by id with `lockedUntil = lockNow + JOB_LOCK_TTL_MS`, where `lockNow` is
   * the second `Date.now()`, and `tries = selected.tries + 1`. Also the claim of
   * lib/indexer/workers.ts, which is the same code.
   */
  method ClaimOneJob(jobs: PendingJobs, workerId: string, now: Millis, lockNow: Millis, lockTtlMs: nat)
    returns (claimed: Option<Job>)
    requires jobs.Valid()
    modifies jobs
    ensures jobs.Valid() && jobs.nextId == old(jobs.nextId)
    ensures (jobs.rows, claimed) == ClaimRows(old(jobs.rows), now, lockNow + lockTtlMs, workerId)
  {
    var selected := OldestDue(jobs.rows, now);
    if selected.None? {
      return None;
    }
    var nextJob := jobs.rows[selected.value];
    var s := LeaseSet(nextJob, lockNow + lockTtlMs, workerId);
    UpdateKeepsIds(jobs.rows, nextJob.id, s, jobs.nextId);
    jobs.rows := UpdateWhereId(jobs.rows, nextJob.id, s);
    claimed := Some(ApplySet(nextJob, s));
  }

  /** The SET list of this variant's `handleJobFailure`, with `tries = stored + 1`. */
  function FailureSet(job: Job, err: string, now: Millis, jitter: Jitter): JobSet
  {
    var tries := job.tries + 1;
    if tries >= job.maxAttempts then
      NO_CHANGE.(lastError := Some(Some(err)), nextAttemptAt := Some(PERMANENTLY_FAILED), lockedUntil := Some(None))
    else
      NO_CHANGE.(lastError := Some(Some(err)), nextAttemptAt := Some(now + ComputeBackoffMs(tries, jitter)),
                 lockedUntil := Some(None), tries := Some(tries))
  }

  /**
   * `handleJobFailure(jobId, err)`: a missing job is left alone. With `tries = stored + 1`,
   * a job at its ceiling is parked (its stored `tries` is not written); any other gets
   * `tries`, the backoff for it and a released `lockedUntil`, with `lockedBy` left as it was.
   */
  function FailureRows(rows: seq<Job>, jobId: JobId, err: string, now: Millis, jitter: Jitter): (r: seq<Job>)
    ensures FindById(rows, jobId).None? ==> r == rows
    ensures UniqueIds(rows) && FindById(rows, jobId).Some? ==> (
      var i := FindById(rows, jobId).value;
      var j := rows[i];
      && |r| == |rows|
      && (forall k :: 0 <= k < |rows| && k != i ==> r[k] == rows[k])
      && r[i].id == j.id && r[i].jobType == j.jobType && r[i].payload == j.payload
      && r[i].maxAttempts == j.maxAttempts && r[i].lockedBy == j.lockedBy
      && r[i].lastError == Some(err) && r[i].lockedUntil.None?
      && (j.tries + 1 >= j.maxAttempts ==>
            r[i].nextAttemptAt == PERMANENTLY_FAILED && r[i].tries == j.tries
            && forall t :: !Claimable(r[i], t))
      && (j.tries + 1 < j.maxAttempts ==>
            r[i].tries == j.tries + 1
            && r[i].nextAttemptAt == now + ComputeBackoffMs(j.tries + 1, jitter)
            && forall t :: Claimable(r[i], t) <==> r[i].nextAttemptAt <= t))
  {
    match FindById(rows, jobId)
    case None => rows
    case Some(i) => UpdateWhereId(rows, rows[i].id, FailureSet(rows[i], err, now, jitter))
  }

  method HandleJobFailure(jobs: PendingJobs, jobId: JobId, err: string, now: Millis, jitter: Jitter)
    requires jobs.Valid()
    modifies jobs
    ensures jobs.Valid() && jobs.nextId == old(jobs.nextId)
    ensures jobs.rows == FailureRows(old(jobs.rows), jobId, err, now, jitter)
  {
    var found := FindById(jobs.rows, jobId);
    if found.Some? {
      UpdateKeepsIds(jobs.rows, jobId, FailureSet(jobs.rows[found.value], err, now, jitter), jobs.nextId);
    }
    jobs.rows := FailureRows(jobs.rows, jobId, err, now, jitter);
  }

  /** The executor's reply: an error goes to `handleJobFailure`; a result is only logged. */
  method OnWorkerMessage(jobs: PendingJobs, id: JobId, error: Option<string>, now: Millis, jitter: Jitter)
    requires jobs.Valid()
    modifies jobs
    ensures jobs.Valid() && jobs.nextId == old(jobs.nextId)
    ensures jobs.rows == if error.Some? && error.value != "" then FailureRows(old(jobs.rows), id, error.value, now, jitter)
                         else old(jobs.rows)
  {
    if error.Some? && error.value != "" {
      HandleJobFailure(jobs, id, error.value, now, jitter);
    }
  }

  /**
   * One iteration of `startJobScheduler`. With a claimed job: `postMessage` it, then
   * delete its row. If the post throws (`postError`) or the delete throws
   * (`deleteError`), the failure handler runs with that error instead, at its own
   * `Date.now()`, `failNow`.
   */
  function StepRows(claimedRows: seq<Job>, claimed: Job, postError: Option<string>, deleteError: Option<string>,
                    failNow: Millis, jitter: Jitter): seq<Job>
  {
    if postError.Some? then FailureRows(claimedRows, claimed.id, postError.value, failNow, jitter)
    else if deleteError.Some? then FailureRows(claimedRows, claimed.id, deleteError.value, failNow, jitter)
    else DeleteWhereId(claimedRows, claimed.id)
  }

  method SchedulerStep(jobs: PendingJobs, workerId: string, now: Millis, lockNow: Millis, lockTtlMs: nat,
                       postError: Option<string>, deleteError: Option<string>, failNow: Millis, jitter: Jitter)
    returns (posted: Option<Job>)
    requires jobs.Valid()
    modifies jobs
    ensures jobs.Valid() && jobs.nextId == old(jobs.nextId)
    ensures var (claimedRows, claimed) := ClaimRows(old(jobs.rows), now, lockNow + lockTtlMs, workerId);
      && (claimed.None? ==> posted.None? && jobs.rows == old(jobs.rows))
      && (claimed.Some? ==> jobs.rows == StepRows(claimedRows, claimed.value, postError, deleteError, failNow, jitter)
                            && (posted.Some? <==> postError.None?)
                            && (posted.Some? ==> posted == claimed))
  {
    var claimed := ClaimOneJob(jobs, workerId, now, lockNow, lockTtlMs);
    posted := None;
    if claimed.Some? {
      if postError.Some? {
        HandleJobFailure(jobs, claimed.value.id, postError.value, failNow, jitter);
      } else {
        posted := claimed;
        if deleteError.Some? {
          HandleJobFailure(jobs, claimed.value.id, deleteError.value, failNow, jitter);
        } else {
          DeleteKeepsIds(jobs.rows, claimed.value.id, jobs.nextId);
          jobs.rows := DeleteWhereId(jobs.rows, claimed.value.id);
        }
      }
    }
  }

  /**
   * Claim followed by failure in this variant: on the retry path `tries` rises by two;
   * on the park path by one, because parking does not write `tries`.
   */
  lemma ClaimThenFailAddsTwoTries(rows: seq<Job>, now: Millis, lockUntil: int, workerId: string, err: string,
                                  failNow: Millis, jitter: Jitter)
    requires UniqueIds(rows) && ClaimRows(rows, now, lockUntil, workerId).1.Some?
    ensures var (claimedRows, claimed) := ClaimRows(rows, now, lockUntil, workerId);
      var i := OldestDue(rows, now).value;
      var after := FailureRows(claimedRows, claimed.value.id, err, failNow, jitter);
      && (rows[i].tries + 2 < rows[i].maxAttempts ==>
            after[i].tries == rows[i].tries + 2 && after[i].lockedBy == Some(workerId)
            && after[i].nextAttemptAt == failNow + ComputeBackoffMs(rows[i].tries + 2, jitter))
      && (rows[i].tries + 2 >= rows[i].maxAttempts ==>
            after[i].tries == rows[i].tries + 1 && after[i].nextAttemptAt == PERMANENTLY_FAILED)
  {
    var (claimedRows, claimed) := ClaimRows(rows, now, lockUntil, workerId);
    var i := OldestDue(rows, now).value;
    UpdateKeepsUnique(rows, rows[i].id, LeaseSet(rows[i], lockUntil, workerId));
    FindByIdUnique(claimedRows, i);
    UpdateOneRow(claimedRows, i, FailureSet(claimedRows[i], err, failNow, jitter));
  }

  /** A posted and deleted job is gone; a failure reported for it afterwards changes nothing. */
  lemma LateFailureIsNoOp(rows: seq<Job>, claimed: Job, err: string, now: Millis, jitter: Jitter)
    requires UniqueIds(rows)
    ensures var gone := StepRows(rows, claimed, None, None, now, jitter);
      FindById(gone, claimed.id).None? && FailureRows(gone, claimed.id, err, now, jitter) == gone
  {
    DeleteRemovesId(rows, claimed.id);
  }

  /** The one-more-failure scenario: stored tries 4 of 5 parks the job, clears its lease and keeps tries at 4. */
  lemma FourOfFiveParks(j: Job, err: string, now: Millis, jitter: Jitter)
    requires j.tries == 4 && j.maxAttempts == 5
    ensures var r := FailureRows([j], j.id, err, now, jitter);
      r[0].nextAttemptAt == PERMANENTLY_FAILED && r[0].lockedUntil.None? && r[0].tries == 4
  {
  }
}
