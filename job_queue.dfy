/**
 * What the three job-queue variants share: the claim eligibility predicate, the
 * oldest-due selection (`ORDER BY nextAttemptAt LIMIT 1`), the lease a claim takes,
 * and `UPDATE ... WHERE id = ?` / `DELETE ... WHERE id = ?` on `pending_jobs`.
 */
module JobQueue {
  import opened Wrappers
  import opened SysSchema
  import Lookup

  /**
   * `nextAttemptAt <= now AND nextAttemptAt != -1 AND (lockedUntil IS NULL OR lockedUntil <= now)`,
   * the WHERE clause of every claim.
   */
  predicate Claimable(j: Job, now: int)
  {
    && j.nextAttemptAt <= now
    && j.nextAttemptAt != PERMANENTLY_FAILED
    && (j.lockedUntil.None? || j.lockedUntil.value <= now)
  }

  /** A fresh job has the schema defaults and is claimable from its insertion time on. */
  lemma NewJobDefaults(id: JobId, jobType: string, payload: Payload, now: Millis, t: int)
    ensures var j := NewJob(id, jobType, payload, now);
      && j.id == id && j.jobType == jobType && j.payload == payload
      && j.tries == 0 && j.maxAttempts == 5 && j.nextAttemptAt == now
      && j.lastError.None? && j.lockedUntil.None? && j.lockedBy.None?
      && (Claimable(j, t) <==> now <= t)
  {
  }

  /** A permanently failed job is not claimable at any time. */
  lemma ParkedNeverClaimable(j: Job, t: int)
    requires j.nextAttemptAt == PERMANENTLY_FAILED
    ensures !Claimable(j, t)
  {
  }

  /**
   * The row `ORDER BY nextAttemptAt LIMIT 1` picks among the claimable ones: a claimable
   * row with the least `nextAttemptAt`, the earliest-inserted one on a tie.
   */
  function OldestDue(rows: seq<Job>, now: int): (r: Option<nat>)
    ensures r.None? <==> forall k :: 0 <= k < |rows| ==> !Claimable(rows[k], now)
    ensures r.Some? ==> r.value < |rows| && Claimable(rows[r.value], now)
    ensures r.Some? ==> forall k :: 0 <= k < |rows| && Claimable(rows[k], now) ==>
      rows[r.value].nextAttemptAt <= rows[k].nextAttemptAt
    ensures r.Some? ==> forall k :: 0 <= k < r.value && Claimable(rows[k], now) ==>
      rows[r.value].nextAttemptAt < rows[k].nextAttemptAt
    decreases |rows|
  {
    if rows == [] then None
    else
      var front := rows[..|rows| - 1];
      var last := |rows| - 1;
      var best := OldestDue(front, now);
      assert forall k :: 0 <= k < last ==> front[k] == rows[k];
      if Claimable(rows[last], now) && (best.None? || rows[last].nextAttemptAt < rows[best.value].nextAttemptAt)
      then Some(last)
      else best
  }

  function JobKey(j: Job): nat
  {
    j.id
  }

  /** The position of the row with primary key `id`, if there is one. */
  function FindById(rows: seq<Job>, id: JobId): (r: Option<nat>)
    ensures r.None? <==> forall k :: 0 <= k < |rows| ==> rows[k].id != id
    ensures r.Some? ==> r.value < |rows| && rows[r.value].id == id
  {
    Lookup.FindByKey(rows, JobKey, id)
  }

  /** The SET list of an UPDATE: `None` leaves a column as it is, `Some(v)` writes `v`. */
  datatype JobSet = JobSet(
    tries: Option<nat>,
    nextAttemptAt: Option<int>,
    lastError: Option<Option<string>>,
    lockedUntil: Option<Option<int>>,
    lockedBy: Option<Option<string>>)

  const NO_CHANGE: JobSet := JobSet(None, None, None, None, None)

  function ApplySet(j: Job, s: JobSet): Job
  {
    j.(tries := s.tries.GetOr(j.tries),
       nextAttemptAt := s.nextAttemptAt.GetOr(j.nextAttemptAt),
       lastError := s.lastError.GetOr(j.lastError),
       lockedUntil := s.lockedUntil.GetOr(j.lockedUntil),
       lockedBy := s.lockedBy.GetOr(j.lockedBy))
  }

  /** `UPDATE pending_jobs SET ... WHERE id = ?`: every row with that id gets the SET list. */
  function UpdateWhereId(rows: seq<Job>, id: JobId, s: JobSet): (r: seq<Job>)
    ensures |r| == |rows|
    ensures forall k :: 0 <= k < |rows| ==> r[k] == if rows[k].id == id then ApplySet(rows[k], s) else rows[k]
  {
    seq(|rows|, k requires 0 <= k < |rows| => if rows[k].id == id then ApplySet(rows[k], s) else rows[k])
  }

  /** `DELETE FROM pending_jobs WHERE id = ?`: the rows with that id go, the rest keep their order. */
  function DeleteWhereId(rows: seq<Job>, id: JobId): seq<Job>
    decreases |rows|
  {
    if rows == [] then []
    else (if rows[0].id == id then [] else [rows[0]]) + DeleteWhereId(rows[1..], id)
  }

  /** A delete keeps exactly the rows with another id. */
  lemma {:induction false} DeleteMembers(rows: seq<Job>, id: JobId)
    ensures forall j :: j in DeleteWhereId(rows, id) <==> j in rows && j.id != id
    decreases |rows|
  {
    if rows != [] {
      DeleteMembers(rows[1..], id);
      assert rows == [rows[0]] + rows[1..];
    }
  }

  /** Deleting an id no row has changes nothing. */
  lemma {:induction false} DeleteAbsent(rows: seq<Job>, id: JobId)
    requires forall k :: 0 <= k < |rows| ==> rows[k].id != id
    ensures DeleteWhereId(rows, id) == rows
    decreases |rows|
  {
    if rows != [] {
      DeleteAbsent(rows[1..], id);
      assert rows == [rows[0]] + rows[1..];
    }
  }

  /** Deleting the key of row `i` from a keyed table removes just that row, keeping the order of the rest. */
  lemma {:induction false} DeleteOnly(rows: seq<Job>, i: nat)
    requires UniqueIds(rows) && i < |rows|
    ensures DeleteWhereId(rows, rows[i].id) == rows[..i] + rows[i + 1..]
    decreases |rows|
  {
    var id := rows[i].id;
    if i == 0 {
      DeleteAbsent(rows[1..], id);
      assert DeleteWhereId(rows, id) == [] + DeleteWhereId(rows[1..], id);
    } else {
      DeleteOnly(rows[1..], i - 1);
      assert rows[1..][i - 1] == rows[i];
      assert DeleteWhereId(rows, id) == [rows[0]] + DeleteWhereId(rows[1..], id);
      assert rows[..i] == [rows[0]] + rows[1..][..i - 1];
      assert rows[i + 1..] == rows[1..][i..];
    }
  }

  /** An update by primary key touches exactly the one row that has the key. */
  lemma UpdateOneRow(rows: seq<Job>, i: nat, s: JobSet)
    requires UniqueIds(rows) && i < |rows|
    ensures UpdateWhereId(rows, rows[i].id, s) == rows[i := ApplySet(rows[i], s)]
  {
  }

  /** Under a primary key, the row found for an id is the one row that has it. */
  lemma FindByIdUnique(rows: seq<Job>, i: nat)
    requires UniqueIds(rows) && i < |rows|
    ensures FindById(rows, rows[i].id) == Some(i)
  {
    var f := FindById(rows, rows[i].id);
    assert rows[f.value].id == rows[i].id;
  }

  /** Updates keep ids, so they keep the primary key. */
  lemma UpdateKeepsUnique(rows: seq<Job>, id: JobId, s: JobSet)
    requires UniqueIds(rows)
    ensures UniqueIds(UpdateWhereId(rows, id, s))
  {
  }

  /** Updates keep ids, so they keep the table's key invariants. */
  lemma UpdateKeepsIds(rows: seq<Job>, id: JobId, s: JobSet, bound: nat)
    requires UniqueIds(rows) && IdsBelow(rows, bound)
    ensures UniqueIds(UpdateWhereId(rows, id, s)) && IdsBelow(UpdateWhereId(rows, id, s), bound)
  {
  }

  /** After a delete no row has the deleted id. */
  lemma DeleteRemovesId(rows: seq<Job>, id: JobId)
    ensures FindById(DeleteWhereId(rows, id), id).None?
  {
    DeleteMembers(rows, id);
    var r := DeleteWhereId(rows, id);
    forall k | 0 <= k < |r| ensures r[k].id != id {
      assert r[k] in r;
    }
  }

  /** Deletes keep the key invariants. */
  lemma {:induction false} DeleteKeepsIds(rows: seq<Job>, id: JobId, bound: nat)
    requires UniqueIds(rows) && IdsBelow(rows, bound)
    ensures UniqueIds(DeleteWhereId(rows, id)) && IdsBelow(DeleteWhereId(rows, id), bound)
    decreases |rows|
  {
    DeleteMembers(rows, id);
    var r := DeleteWhereId(rows, id);
    forall k | 0 <= k < |r| ensures r[k].id < bound && r[k].id != id {
      assert r[k] in r;
    }
    if rows != [] {
      DeleteKeepsIds(rows[1..], id, bound);
      var tail := DeleteWhereId(rows[1..], id);
      DeleteMembers(rows[1..], id);
      if rows[0].id != id {
        forall k | 0 <= k < |tail| ensures tail[k].id != rows[0].id {
          assert tail[k] in rows[1..];
        }
        assert r == [rows[0]] + tail;
      } else {
        assert r == tail;
      }
    }
  }

  /** Deleting by a key that is present removes exactly one row. */
  lemma {:induction false} DeleteRemovesOne(rows: seq<Job>, id: JobId)
    requires UniqueIds(rows) && FindById(rows, id).Some?
    ensures |DeleteWhereId(rows, id)| == |rows| - 1
    decreases |rows|
  {
    if rows[0].id == id {
      assert forall k :: 0 <= k < |rows[1..]| ==> rows[1..][k].id != id;
      DeleteAbsent(rows[1..], id);
    } else {
      DeleteRemovesOne(rows[1..], id);
    }
  }

  /** The lease a claim takes: `lockedUntil`, `lockedBy` and `tries + 1`. */
  function LeaseSet(j: Job, lockUntil: int, workerId: string): JobSet
  {
    NO_CHANGE.(lockedUntil := Some(Some(lockUntil)), lockedBy := Some(Some(workerId)), tries := Some(j.tries + 1))
  }

  /**
   * One claim transaction: lease the oldest-due claimable row and return it as stored
   * afterwards (`.returning()`), or return nothing and change nothing.
   */
  function ClaimRows(rows: seq<Job>, now: int, lockUntil: int, workerId: string): (r: (seq<Job>, Option<Job>))
    ensures r.1.None? <==> forall k :: 0 <= k < |rows| ==> !Claimable(rows[k], now)
    ensures r.1.None? ==> r.0 == rows
    ensures r.1.Some? ==> OldestDue(rows, now).Some?
    ensures r.1.Some? ==> (
      var i := OldestDue(rows, now).value;
      && Claimable(rows[i], now)
      && r.1.value == rows[i].(lockedUntil := Some(lockUntil), lockedBy := Some(workerId), tries := rows[i].tries + 1)
      && (UniqueIds(rows) ==> r.0 == rows[i := r.1.value]))
  {
    match OldestDue(rows, now)
    case None => (rows, None)
    case Some(i) =>
      var s := LeaseSet(rows[i], lockUntil, workerId);
      (UpdateWhereId(rows, rows[i].id, s), Some(ApplySet(rows[i], s)))
  }

  /** While its lease runs, a claimed job cannot be claimed again. */
  lemma LeaseExcludes(rows: seq<Job>, now: int, lockUntil: int, workerId: string, t: int, otherWorker: string, otherLock: int)
    requires UniqueIds(rows) && ClaimRows(rows, now, lockUntil, workerId).1.Some?
    requires t < lockUntil
    ensures var (after, claimed) := ClaimRows(rows, now, lockUntil, workerId);
      !Claimable(claimed.value, t) &&
      var (_, second) := ClaimRows(after, t, otherLock, otherWorker);
      second.None? || second.value.id != claimed.value.id
  {
    var (after, claimed) := ClaimRows(rows, now, lockUntil, workerId);
    var i := OldestDue(rows, now).value;
    var (_, second) := ClaimRows(after, t, otherLock, otherWorker);
    if second.Some? {
      var k := OldestDue(after, t).value;
      assert Claimable(after[k], t);
      assert k != i;
      assert after[k] == rows[k];
    }
  }

  /** With a single claimable job and a live lease, a second claim at the same time finds nothing. */
  lemma SecondClaimFindsNothing(rows: seq<Job>, now: int, ttl: nat, a: string, b: string, lockB: int)
    requires UniqueIds(rows) && ttl > 0
    requires exists i :: 0 <= i < |rows| && Claimable(rows[i], now)
    requires forall i, j :: 0 <= i < |rows| && 0 <= j < |rows| && Claimable(rows[i], now) && Claimable(rows[j], now) ==> i == j
    ensures ClaimRows(rows, now, now + ttl, a).1.Some?
    ensures ClaimRows(ClaimRows(rows, now, now + ttl, a).0, now, lockB, b).1.None?
  {
    var (after, claimed) := ClaimRows(rows, now, now + ttl, a);
    var i := OldestDue(rows, now).value;
    forall k | 0 <= k < |after| ensures !Claimable(after[k], now) {
      if k != i {
        assert after[k] == rows[k];
      }
    }
  }
}
