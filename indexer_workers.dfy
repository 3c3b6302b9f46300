/**
 * lib/indexer/workers.ts: a worker loop that claims a job, runs the executor inline
 * and handles the outcome itself. Success deletes the job. Failure, or a failed
 * delete, computes `tries = claimed.tries + 1` from the row the claim returned, which
 * already holds the claim's increment, and parks the job or backs it off. The
 * executor is an abstract outcome.
 */
module IndexerWorkers {
  import opened Wrappers
  import opened SysSchema
  import opened JobQueue
  import opened Backoff
  import IndexerScheduler

  /**
   * The SET list of the inline failure branch, computed from the claimed row `claimed`.
   * The source's fallback for a missing `maxAttempts` never applies: the column is NOT NULL.
   */
  function InlineFailureSet(claimed: Job, err: string, now: Millis, jitter: Jitter): JobSet
  {
    var tries := claimed.tries + 1;
    if tries >= claimed.maxAttempts then
      NO_CHANGE.(lastError := Some(Some(err)), nextAttemptAt := Some(PERMANENTLY_FAILED), lockedUntil := Some(None))
    else
      NO_CHANGE.(lastError := Some(Some(err)), nextAttemptAt := Some(now + ComputeBackoffMs(tries, jitter)),
                 lockedUntil := Some(None), tries := Some(tries))
  }

  /**
   * The catch branch of `startJobWorker`: the update by id of `claimed`. Whether the job
   * is parked depends on the claimed copy, not on the row as stored now; a row that
   * has gone is left alone.
   */
  function InlineFailureRows(rows: seq<Job>, claimed: Job, err: string, now: Millis, jitter: Jitter): (r: seq<Job>)
    ensures FindById(rows, claimed.id).None? ==> r == rows
    ensures UniqueIds(rows) && FindById(rows, claimed.id).Some? ==> (
      var i := FindById(rows, claimed.id).value;
      && |r| == |rows|
      && (forall k :: 0 <= k < |rows| && k != i ==> r[k] == rows[k])
      && r[i].id == rows[i].id && r[i].jobType == rows[i].jobType && r[i].payload == rows[i].payload
      && r[i].maxAttempts == rows[i].maxAttempts
      && r[i].lastError == Some(err) && r[i].lockedUntil.None? && r[i].lockedBy == rows[i].lockedBy
      && (claimed.tries + 1 >= claimed.maxAttempts ==>
            r[i].nextAttemptAt == PERMANENTLY_FAILED && r[i].tries == rows[i].tries)
      && (claimed.tries + 1 < claimed.maxAttempts ==>
            r[i].tries == claimed.tries + 1 && r[i].nextAttemptAt == now + ComputeBackoffMs(claimed.tries + 1, jitter)))
  {
    UpdateWhereId(rows, claimed.id, InlineFailureSet(claimed, err, now, jitter))
  }

  /**
   * After the claim: `processJob` either succeeds (`outcome == None`) or throws
   * `Some(err)`. Success deletes exactly that job, unless the delete throws
   * `deleteError`, which lands in the same catch branch. `failNow` is the catch
   * branch's own `Date.now()`, read after `processJob` has run.
   */
  function AfterProcessing(rows: seq<Job>, claimed: Job, outcome: Option<string>, deleteError: Option<string>,
                           failNow: Millis, jitter: Jitter): seq<Job>
  {
    if outcome.Some? then InlineFailureRows(rows, claimed, outcome.value, failNow, jitter)
    else if deleteError.Some? then InlineFailureRows(rows, claimed, deleteError.value, failNow, jitter)
    else DeleteWhereId(rows, claimed.id)
  }

  /** One iteration of `startJobWorker`; with no claimable job it only sleeps. */
  method WorkerStep(jobs: PendingJobs, workerId: string, now: Millis, lockNow: Millis, lockTtlMs: nat,
                    outcome: Option<string>, deleteError: Option<string>, failNow: Millis, jitter: Jitter)
    returns (processed: Option<Job>)
    requires jobs.Valid()
    modifies jobs
    ensures jobs.Valid() && jobs.nextId == old(jobs.nextId)
    ensures var (claimedRows, claimed) := ClaimRows(old(jobs.rows), now, lockNow + lockTtlMs, workerId);
      && processed == claimed
      && jobs.rows == if claimed.None? then old(jobs.rows)
                      else AfterProcessing(claimedRows, claimed.value, outcome, deleteError, failNow, jitter)
  {
    processed := IndexerScheduler.ClaimOneJob(jobs, workerId, now, lockNow, lockTtlMs);
    if processed.None? {
      return;
    }
    var job := processed.value;
    var err := if outcome.Some? then outcome else deleteError;
    if err.Some? {
      UpdateKeepsIds(jobs.rows, job.id, InlineFailureSet(job, err.value, failNow, jitter), jobs.nextId);
      jobs.rows := InlineFailureRows(jobs.rows, job, err.value, failNow, jitter);
    } else {
      DeleteKeepsIds(jobs.rows, job.id, jobs.nextId);
      jobs.rows := DeleteWhereId(jobs.rows, job.id);
    }
  }

  /** Successful processing removes exactly the processed job and keeps every other row in order. */
  lemma SuccessDeletesOnlyThatJob(rows: seq<Job>, now: Millis, lockUntil: int, workerId: string, failNow: Millis,
                                  jitter: Jitter)
    requires UniqueIds(rows) && ClaimRows(rows, now, lockUntil, workerId).1.Some?
    ensures var (claimedRows, claimed) := ClaimRows(rows, now, lockUntil, workerId);
      var i := OldestDue(rows, now).value;
      AfterProcessing(claimedRows, claimed.value, None, None, failNow, jitter) == rows[..i] + rows[i + 1..]
  {
    var (claimedRows, claimed) := ClaimRows(rows, now, lockUntil, workerId);
    var i := OldestDue(rows, now).value;
    assert claimedRows == rows[i := claimed.value];
    assert UniqueIds(claimedRows) by {
      UpdateKeepsUnique(rows, rows[i].id, LeaseSet(rows[i], lockUntil, workerId));
    }
    DeleteOnly(claimedRows, i);
    assert claimedRows[..i] == rows[..i] && claimedRows[i + 1..] == rows[i + 1..];
  }

  /**
   * Claim and failure from the claimed copy add two tries on the retry path, one on the
   * park path. The retry is scheduled from the failure's clock reading, not the claim's.
   */
  lemma ClaimThenFailAddsTwoTries(rows: seq<Job>, now: Millis, lockUntil: int, workerId: string, err: string,
                                  failNow: Millis, jitter: Jitter)
    requires UniqueIds(rows) && ClaimRows(rows, now, lockUntil, workerId).1.Some?
    ensures var (claimedRows, claimed) := ClaimRows(rows, now, lockUntil, workerId);
      var i := OldestDue(rows, now).value;
      var after := AfterProcessing(claimedRows, claimed.value, Some(err), None, failNow, jitter);
      && (rows[i].tries + 2 < rows[i].maxAttempts ==>
            after[i].tries == rows[i].tries + 2
            && after[i].nextAttemptAt == failNow + ComputeBackoffMs(rows[i].tries + 2, jitter))
      && (rows[i].tries + 2 >= rows[i].maxAttempts ==>
            after[i].tries == rows[i].tries + 1 && after[i].nextAttemptAt == PERMANENTLY_FAILED)
  {
    var (claimedRows, claimed) := ClaimRows(rows, now, lockUntil, workerId);
    var i := OldestDue(rows, now).value;
    UpdateKeepsUnique(rows, rows[i].id, LeaseSet(rows[i], lockUntil, workerId));
    FindByIdUnique(claimedRows, i);
    UpdateOneRow(claimedRows, i, InlineFailureSet(claimed.value, err, failNow, jitter));
  }
}
