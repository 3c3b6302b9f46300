/**
 * lib/indexer/engine.ts: one iteration of `startIndexer` for one contract. It reads or
 * creates the contract's checkpoint, takes a confirmation-safe chain head, picks a
 * bounded block range just past the checkpoint, sorts the fetched logs by
 * (blockNumber, logIndex), enqueues one `pending_jobs` row per log and advances the
 * checkpoint to the end of the range.
 * The chain head and the fetched logs are parameters (`None` where the provider call
 * throws), and so is the one database write that throws, if any (`WriteFault`); the
 * sleeps become the `SleepMs` of the cycle's outcome.
 */
module IndexerEngine {
  import opened Wrappers
  import opened SysSchema
  import MathUtils
  import Sorting

  // config.ts
  const CONFIRMATIONS: int := 6
  const MAX_BATCH_BLOCKS: int := 200
  const POLL_INTERVAL_MS: nat := 3000
  const DEFAULT_START_BLOCK: int := 3_044_275
  /** The sleep after an error, written inline in the catch block. */
  const ERROR_BACKOFF_MS: nat := 5000

  predicate IsLowerAscii(c: char)
  {
    'a' <= c <= 'z'
  }

  function UpperAscii(c: char): char
  {
    if IsLowerAscii(c) then (c as int - 32) as char else c
  }

  /** `contract.toUpperCase()` on the ASCII contract names the indexer is started with. */
  function ToUpperAscii(s: string): (u: string)
    ensures |u| == |s|
    ensures forall i :: 0 <= i < |u| ==> !IsLowerAscii(u[i])
    ensures forall i :: 0 <= i < |u| && !IsLowerAscii(s[i]) ==> u[i] == s[i]
    ensures forall i :: 0 <= i < |s| && IsLowerAscii(s[i]) ==> u[i] as int == s[i] as int - 32
  {
    seq(|s|, i requires 0 <= i < |s| => UpperAscii(s[i]))
  }

  /** Upper-casing is idempotent: an identifier is its own identifier. */
  lemma UpperIdempotent(s: string)
    ensures ToUpperAscii(ToUpperAscii(s)) == ToUpperAscii(s)
  {
    var u := ToUpperAscii(s);
    assert forall i :: 0 <= i < |u| ==> ToUpperAscii(u)[i] == u[i];
  }

  /** The job type of an event: `${identifier}_EVENT_${eventName}`. */
  function EventJobType(identifier: string, eventName: string): (t: string)
    ensures |t| == |identifier| + 7 + |eventName|
    ensures t[..|identifier|] == identifier && t[|identifier|..|identifier| + 7] == "_EVENT_"
    ensures t[|identifier| + 7..] == eventName
  {
    identifier + "_EVENT_" + eventName
  }

  /** The file-registry indexer, started as `FSFileRegistry`, names its jobs with the prefix the event worker dispatches on. */
  lemma FileRegistryJobPrefix(eventName: string)
    ensures EventJobType(ToUpperAscii("FSFileRegistry"), eventName) == "FSFILEREGISTRY_EVENT_" + eventName
  {
    var u := ToUpperAscii("FSFileRegistry");
    assert u == "FSFILEREGISTRY" by {
      assert forall i :: 0 <= i < |u| ==> u[i] == "FSFILEREGISTRY"[i];
    }
  }

  // ---------------------------------------------------------------------------
  // indexer_checkpoints

  /**
   * `getCheckpoint`: the stored height if the row exists; otherwise a row at
   * `DEFAULT_START_BLOCK` is inserted and returned. Yields the new table and the height.
   */
  function ReadCheckpoint(rows: map<string, int>, identifier: string): (r: (map<string, int>, int))
    ensures identifier in r.0 && r.0[identifier] == r.1
    ensures identifier in rows ==> r.0 == rows
    ensures identifier !in rows ==> r.1 == DEFAULT_START_BLOCK && r.0.Keys == rows.Keys + {identifier}
    ensures forall k :: k in rows ==> k in r.0 && r.0[k] == rows[k]
  {
    if identifier in rows then (rows, rows[identifier])
    else (rows[identifier := DEFAULT_START_BLOCK], DEFAULT_START_BLOCK)
  }

  /** `updateCheckpoint`: `UPDATE ... SET blockHeight = block WHERE identifier = ?`; no row, no change. */
  function UpdateCheckpointRows(rows: map<string, int>, identifier: string, block: int): (r: map<string, int>)
    ensures r.Keys == rows.Keys
    ensures identifier in rows ==> r[identifier] == block
    ensures forall k :: k in rows && k != identifier ==> r[k] == rows[k]
  {
    if identifier in rows then rows[identifier := block] else rows
  }

  method GetCheckpoint(checkpoints: IndexerCheckpoints, identifier: string) returns (height: int)
    modifies checkpoints
    ensures (checkpoints.rows, height) == ReadCheckpoint(old(checkpoints.rows), identifier)
  {
    if identifier in checkpoints.rows {
      height := checkpoints.rows[identifier];
    } else {
      checkpoints.rows := checkpoints.rows[identifier := DEFAULT_START_BLOCK];
      height := DEFAULT_START_BLOCK;
    }
  }

  method UpdateCheckpoint(checkpoints: IndexerCheckpoints, identifier: string, block: int)
    modifies checkpoints
    ensures checkpoints.rows == UpdateCheckpointRows(old(checkpoints.rows), identifier, block)
  {
    if identifier in checkpoints.rows {
      checkpoints.rows := checkpoints.rows[identifier := block];
    }
  }

  // ---------------------------------------------------------------------------
  // Range selection

  datatype BlockRange = BlockRange(from: int, to: int)

  /** `bigIntMax(0n, latest - CONFIRMATIONS)`: the head less the confirmations, never negative. */
  function SafeLatest(latest: int): (s: int)
    ensures s >= 0 && s >= latest - CONFIRMATIONS
    ensures s == 0 || s == latest - CONFIRMATIONS
  {
    MathUtils.BigIntMax([0, latest - CONFIRMATIONS]).value
  }

  /**
   * The block range a cycle scans, with both of the source's guards: none when the
   * safe head is not past the checkpoint, otherwise `from = max(0, checkpoint + 1)` and
   * `to = min(safeLatest, from + MAX_BATCH_BLOCKS - 1)`.
   */
  function ScanRange(checkpoint: int, latest: int): (r: Option<BlockRange>)
    ensures r.None? <==> SafeLatest(latest) <= checkpoint
    ensures r.Some? ==> checkpoint < r.value.from <= r.value.to <= SafeLatest(latest)
    ensures r.Some? ==> r.value.to - r.value.from + 1 <= MAX_BATCH_BLOCKS
    ensures r.Some? ==> r.value.to == SafeLatest(latest) || r.value.to - r.value.from + 1 == MAX_BATCH_BLOCKS
    ensures r.Some? ==> r.value.from == (if checkpoint + 1 < 0 then 0 else checkpoint + 1)
  {
    var safeLatest := SafeLatest(latest);
    if safeLatest <= checkpoint then None
    else
      var from := MathUtils.BigIntMax([0, checkpoint + 1]).value;
      assert from in [0, checkpoint + 1];
      if from > safeLatest then None
      else
        var to := MathUtils.BigIntMin([safeLatest, from + MAX_BATCH_BLOCKS - 1]).value;
        assert to in [safeLatest, from + MAX_BATCH_BLOCKS - 1];
        Some(BlockRange(from, to))
  }

  // ---------------------------------------------------------------------------
  // Sorting and enqueueing

  /** The comparator's key: block number, then log index with a missing index read as 0. */
  function LogKey(l: Log): (int, int)
  {
    (l.blockNumber, l.logIndex.GetOr(0))
  }

  /** `logs.sort(...)`: a permutation of the fetched logs in ascending (blockNumber, logIndex) order. */
  function SortLogs(logs: seq<Log>): (r: seq<Log>)
    ensures multiset(r) == multiset(logs) && |r| == |logs|
    ensures Sorting.SortedByKey(r, LogKey)
  {
    Sorting.SortByKeyCorrect(logs, LogKey);
    assert |multiset(logs)| == |logs|;
    Sorting.SortByKey(logs, LogKey)
  }

  /** Logs that compare equal keep their provider order, as `Array.prototype.sort` is stable. */
  lemma SortLogsStable(logs: seq<Log>, k: (int, int))
    ensures Sorting.WithKey(SortLogs(logs), LogKey, k) == Sorting.WithKey(logs, LogKey, k)
  {
    Sorting.SortByKeyStable(logs, LogKey, k);
  }

  /** The rows the insert loop adds for `logs`, ids drawn from `firstId` on. */
  function EventJobs(identifier: string, logs: seq<Log>, firstId: JobId, now: Millis): (r: seq<Job>)
    ensures |r| == |logs|
    ensures forall i :: 0 <= i < |logs| ==>
      r[i] == NewJob(firstId + i, EventJobType(identifier, logs[i].eventName), EventLog(logs[i]), now)
    decreases |logs|
  {
    if logs == [] then []
    else [NewJob(firstId, EventJobType(identifier, logs[0].eventName), EventLog(logs[0]), now)]
         + EventJobs(identifier, logs[1..], firstId + 1, now)
  }

  /** The logs carried by rows whose payloads are all logs. */
  function PayloadLogs(jobs: seq<Job>): (r: seq<Log>)
    requires forall i :: 0 <= i < |jobs| ==> jobs[i].payload.EventLog?
    ensures |r| == |jobs| && forall i :: 0 <= i < |jobs| ==> jobs[i].payload == EventLog(r[i])
  {
    seq(|jobs|, i requires 0 <= i < |jobs| => jobs[i].payload.log)
  }

  /** The loop over the sorted logs, each insert with the column defaults. */
  method EnqueueLogs(jobs: PendingJobs, identifier: string, logs: seq<Log>, now: Millis)
    requires jobs.Valid()
    modifies jobs
    ensures jobs.Valid()
    ensures jobs.rows == old(jobs.rows) + EventJobs(identifier, logs, old(jobs.nextId), now)
    ensures jobs.nextId == old(jobs.nextId) + |logs|
  {
    ghost var rows0 := jobs.rows;
    ghost var first := jobs.nextId;
    for i := 0 to |logs|
      invariant jobs.nextId == first + i
      invariant jobs.rows == rows0 + EventJobs(identifier, logs[..i], first, now)
      invariant jobs.Valid()
    {
      var job := NewJob(jobs.nextId, EventJobType(identifier, logs[i].eventName), EventLog(logs[i]), now);
      assert EventJobs(identifier, logs[..i + 1], first, now) == EventJobs(identifier, logs[..i], first, now) + [job];
      jobs.rows := jobs.rows + [job];
      jobs.nextId := jobs.nextId + 1;
    }
    assert logs[..|logs|] == logs;
  }

  // ---------------------------------------------------------------------------
  // One cycle of the loop

  datatype CycleOutcome =
    | Idle                                      // nothing new past the checkpoint
    | Scanned(range: BlockRange, enqueued: nat) // logs of `range` enqueued, checkpoint at `range.to`
    | Failed                                    // a provider call or a database write threw

  /**
   * The database write of a cycle that throws, if any. Each write is its own statement
   * with no transaction around the loop, so the writes before it stay. A fault whose
   * write the cycle never reaches has no effect.
   */
  datatype WriteFault =
    | NoFault
    | CheckpointInsertFails       // the insert of a missing checkpoint row
    | JobInsertFails(index: nat)  // the insert for the `index`-th sorted log
    | CheckpointUpdateFails       // `updateCheckpoint` after the loop

  /** What the loop sleeps before its next cycle. */
  function SleepMs(o: CycleOutcome): nat
  {
    match o
    case Idle => POLL_INTERVAL_MS
    case Scanned(_, _) => 0
    case Failed => ERROR_BACKOFF_MS
  }

  datatype CycleState = CycleState(checkpoints: map<string, int>, jobs: seq<Job>, nextId: JobId)

  /** The stored height `getCheckpoint` yields for `identifier`. */
  function HeightBefore(s: CycleState, identifier: string): int
  {
    ReadCheckpoint(s.checkpoints, identifier).1
  }

  /** `getCheckpoint` throws: the row is missing and its insert fails. */
  predicate CheckpointLost(s: CycleState, identifier: string, fault: WriteFault)
  {
    fault.CheckpointInsertFails? && identifier !in s.checkpoints
  }

  /** The cycle gets past both provider calls with a range to scan and reaches its writes. */
  predicate ReachesWrites(s: CycleState, identifier: string, latest: Option<int>, fetched: Option<seq<Log>>,
                          fault: WriteFault)
  {
    && !CheckpointLost(s, identifier, fault) && latest.Some?
    && SafeLatest(latest.value) > HeightBefore(s, identifier) && fetched.Some?
  }

  /** Some write after the fetch throws, for a batch of `n` logs. */
  predicate WritesFail(fault: WriteFault, n: nat)
  {
    (fault.JobInsertFails? && fault.index < n) || fault.CheckpointUpdateFails?
  }

  /** How many of `n` job inserts complete. */
  function Inserted(fault: WriteFault, n: nat): (k: nat)
    ensures k <= n
    ensures k < n <==> fault.JobInsertFails? && fault.index < n
  {
    if fault.JobInsertFails? && fault.index < n then fault.index else n
  }

  /**
   * The writes after the fetch: the job inserts for the sorted logs, then
   * `updateCheckpoint` to the end of the range, stopping at the write that throws.
   */
  function WriteBatch(read: CycleState, identifier: string, sorted: seq<Log>, range: BlockRange,
                      fault: WriteFault, now: Millis): (r: (CycleState, CycleOutcome))
    ensures r.0.jobs == read.jobs + EventJobs(identifier, sorted[..Inserted(fault, |sorted|)], read.nextId, now)
    ensures r.0.nextId == read.nextId + Inserted(fault, |sorted|)
    ensures r.1 == if WritesFail(fault, |sorted|) then Failed else Scanned(range, |sorted|)
    ensures r.0.checkpoints ==
      if WritesFail(fault, |sorted|) then read.checkpoints
      else UpdateCheckpointRows(read.checkpoints, identifier, range.to)
  {
    var k := Inserted(fault, |sorted|);
    var written := read.(jobs := read.jobs + EventJobs(identifier, sorted[..k], read.nextId, now),
                         nextId := read.nextId + k);
    if WritesFail(fault, |sorted|) then (written, Failed)
    else (written.(checkpoints := UpdateCheckpointRows(read.checkpoints, identifier, range.to)), Scanned(range, k))
  }

  /**
   * One cycle for the contract `identifier` (already upper-cased), with the head the
   * provider reports (`None`: it threw), the logs it returns for the range and the
   * database write that throws.
   */
  function Cycle(s: CycleState, identifier: string, latest: Option<int>, fetched: Option<seq<Log>>,
                 fault: WriteFault, now: Millis): (r: (CycleState, CycleOutcome))
    ensures CheckpointLost(s, identifier, fault) ==> r == (s, Failed)
    ensures !CheckpointLost(s, identifier, fault) ==>
      identifier in r.0.checkpoints && r.0.checkpoints[identifier] >= HeightBefore(s, identifier)
    ensures forall k :: k in s.checkpoints && k != identifier ==> k in r.0.checkpoints && r.0.checkpoints[k] == s.checkpoints[k]
    ensures r.1.Idle? <==>
      !CheckpointLost(s, identifier, fault) && latest.Some? && SafeLatest(latest.value) <= HeightBefore(s, identifier)
    ensures r.1.Scanned? <==>
      ReachesWrites(s, identifier, latest, fetched, fault) && !WritesFail(fault, |fetched.value|)
    ensures !r.1.Scanned? && identifier in r.0.checkpoints ==> r.0.checkpoints[identifier] == HeightBefore(s, identifier)
    ensures !ReachesWrites(s, identifier, latest, fetched, fault) ==> r.0.jobs == s.jobs && r.0.nextId == s.nextId
    ensures ReachesWrites(s, identifier, latest, fetched, fault) ==>
      && |r.0.jobs| == |s.jobs| + Inserted(fault, |fetched.value|) && r.0.jobs[..|s.jobs|] == s.jobs
      && r.0.nextId == s.nextId + Inserted(fault, |fetched.value|)
    ensures r.1.Scanned? ==>
      && Some(r.1.range) == ScanRange(HeightBefore(s, identifier), latest.value)
      && r.0.checkpoints[identifier] == r.1.range.to > HeightBefore(s, identifier)
      && r.1.enqueued == |fetched.value| && |r.0.jobs| == |s.jobs| + |fetched.value|
  {
    if CheckpointLost(s, identifier, fault) then (s, Failed)
    else
      var (checkpoints, height) := ReadCheckpoint(s.checkpoints, identifier);
      var read := s.(checkpoints := checkpoints);
      if latest.None? then (read, Failed)
      else match ScanRange(height, latest.value)
        case None => (read, Idle)
        case Some(range) =>
          if fetched.None? then (read, Failed)
          else
            var sorted := SortLogs(fetched.value);
            var added := EventJobs(identifier, sorted[..Inserted(fault, |sorted|)], s.nextId, now);
            assert (s.jobs + added)[..|s.jobs|] == s.jobs;
            WriteBatch(read, identifier, sorted, range, fault, now)
  }

  /** The loop body of `startIndexer`; whatever throws is caught and ends the cycle. */
  method RunCycle(checkpoints: IndexerCheckpoints, jobs: PendingJobs, identifier: string,
                  latest: Option<int>, fetched: Option<seq<Log>>, fault: WriteFault, now: Millis)
    returns (outcome: CycleOutcome)
    requires jobs.Valid()
    modifies checkpoints, jobs
    ensures jobs.Valid()
    ensures (CycleState(checkpoints.rows, jobs.rows, jobs.nextId), outcome)
         == Cycle(CycleState(old(checkpoints.rows), old(jobs.rows), old(jobs.nextId)), identifier, latest, fetched, fault, now)
  {
    if fault.CheckpointInsertFails? && identifier !in checkpoints.rows {
      return Failed;
    }
    var height := GetCheckpoint(checkpoints, identifier);
    if latest.None? {
      return Failed;
    }
    var range := ScanRange(height, latest.value);
    if range.None? {
      return Idle;
    }
    if fetched.None? {
      return Failed;
    }
    var sorted := SortLogs(fetched.value);
    outcome := WriteLogs(checkpoints, jobs, identifier, sorted, range.value, fault, now);
  }

  /** The insert loop and `updateCheckpoint`, up to the write that throws. */
  method WriteLogs(checkpoints: IndexerCheckpoints, jobs: PendingJobs, identifier: string, sorted: seq<Log>,
                   range: BlockRange, fault: WriteFault, now: Millis) returns (outcome: CycleOutcome)
    requires jobs.Valid()
    modifies checkpoints, jobs
    ensures jobs.Valid()
    ensures (CycleState(checkpoints.rows, jobs.rows, jobs.nextId), outcome)
         == WriteBatch(CycleState(old(checkpoints.rows), old(jobs.rows), old(jobs.nextId)), identifier, sorted, range, fault, now)
  {
    EnqueueLogs(jobs, identifier, sorted[..Inserted(fault, |sorted|)], now);
    if WritesFail(fault, |sorted|) {
      return Failed;
    }
    UpdateCheckpoint(checkpoints, identifier, range.to);
    outcome := Scanned(range, |sorted|);
  }

  // ---------------------------------------------------------------------------
  // Properties across cycles

  /** The rows for a prefix of the logs are the prefix of the rows for all of them. */
  lemma EventJobsPrefix(identifier: string, logs: seq<Log>, k: nat, firstId: JobId, now: Millis)
    requires k <= |logs|
    ensures EventJobs(identifier, logs[..k], firstId, now) == EventJobs(identifier, logs, firstId, now)[..k]
  {
    var a := EventJobs(identifier, logs[..k], firstId, now);
    var b := EventJobs(identifier, logs, firstId, now)[..k];
    assert forall i :: 0 <= i < k ==> a[i] == b[i];
  }

  /** A scanning cycle enqueues every fetched log exactly once, in sorted order, as a fresh claimable job of the event's type. */
  lemma {:induction false} ScanEnqueuesEachLog(s: CycleState, identifier: string, latest: Option<int>,
                                               fetched: Option<seq<Log>>, fault: WriteFault, now: Millis)
    requires Cycle(s, identifier, latest, fetched, fault, now).1.Scanned?
    ensures var added := Cycle(s, identifier, latest, fetched, fault, now).0.jobs[|s.jobs|..];
      && (forall i :: 0 <= i < |added| ==> added[i].payload.EventLog?)
      && multiset(PayloadLogs(added)) == multiset(fetched.value)
      && Sorting.SortedByKey(PayloadLogs(added), LogKey)
      && (forall i :: 0 <= i < |added| ==>
            && added[i].jobType == EventJobType(identifier, added[i].payload.log.eventName)
            && added[i].id == s.nextId + i && added[i].tries == 0
            && added[i].nextAttemptAt == now && added[i].lockedUntil.None?)
  {
    var sorted := SortLogs(fetched.value);
    assert sorted[..|sorted|] == sorted;
    var added := EventJobs(identifier, sorted, s.nextId, now);
    assert Cycle(s, identifier, latest, fetched, fault, now).0.jobs == s.jobs + added;
    assert (s.jobs + added)[|s.jobs|..] == added;
    assert PayloadLogs(added) == sorted;
  }

  /**
   * A write that throws after the fetch leaves the checkpoint where it was and keeps the
   * job rows already inserted: the jobs for a prefix of the sorted logs, all of them when
   * only `updateCheckpoint` throws.
   */
  lemma FailedWriteKeepsPrefix(s: CycleState, identifier: string, latest: Option<int>, fetched: Option<seq<Log>>,
                               fault: WriteFault, now: Millis)
    requires ReachesWrites(s, identifier, latest, fetched, fault) && WritesFail(fault, |fetched.value|)
    ensures var (t, o) := Cycle(s, identifier, latest, fetched, fault, now);
      && o == Failed && t.checkpoints[identifier] == HeightBefore(s, identifier)
      && t.jobs == s.jobs + EventJobs(identifier, SortLogs(fetched.value), s.nextId, now)[..Inserted(fault, |fetched.value|)]
  {
    EventJobsPrefix(identifier, SortLogs(fetched.value), Inserted(fault, |fetched.value|), s.nextId, now);
  }

  /**
   * After a failed write, a retry that sees the same head and the same logs scans the
   * same range again and enqueues every log, so the logs whose rows the failed cycle
   * kept are enqueued twice.
   */
  lemma RetryAfterFailedWriteRequeues(s: CycleState, identifier: string, latest: Option<int>, fetched: Option<seq<Log>>,
                                      fault: WriteFault, now1: Millis, now2: Millis)
    requires ReachesWrites(s, identifier, latest, fetched, fault) && WritesFail(fault, |fetched.value|)
    ensures var (t, _) := Cycle(s, identifier, latest, fetched, fault, now1);
      var (u, o) := Cycle(t, identifier, latest, fetched, NoFault, now2);
      var sorted := SortLogs(fetched.value);
      && o.Scanned? && Some(o.range) == ScanRange(HeightBefore(s, identifier), latest.value)
      && u.jobs == s.jobs + EventJobs(identifier, sorted, s.nextId, now1)[..Inserted(fault, |sorted|)]
                          + EventJobs(identifier, sorted, t.nextId, now2)
  {
    var (t, _) := Cycle(s, identifier, latest, fetched, fault, now1);
    FailedWriteKeepsPrefix(s, identifier, latest, fetched, fault, now1);
    assert HeightBefore(t, identifier) == HeightBefore(s, identifier);
    var sorted := SortLogs(fetched.value);
    assert sorted[..|sorted|] == sorted;
  }

  /** A cycle keeps job ids unique and below the id counter. */
  lemma CycleKeepsJobsValid(s: CycleState, identifier: string, latest: Option<int>, fetched: Option<seq<Log>>,
                            fault: WriteFault, now: Millis)
    requires UniqueIds(s.jobs) && IdsBelow(s.jobs, s.nextId)
    ensures var t := Cycle(s, identifier, latest, fetched, fault, now).0;
      UniqueIds(t.jobs) && IdsBelow(t.jobs, t.nextId)
  {
    var (t, o) := Cycle(s, identifier, latest, fetched, fault, now);
    if ReachesWrites(s, identifier, latest, fetched, fault) {
      var sorted := SortLogs(fetched.value);
      var added := EventJobs(identifier, sorted[..Inserted(fault, |sorted|)], s.nextId, now);
      assert t.jobs == s.jobs + added;
    }
  }

  /**
   * Two scanning cycles in a row cover adjacent ranges: the second starts on the block
   * after the first one ended, so no block is skipped or scanned twice.
   */
  lemma ScansAreContiguous(s: CycleState, identifier: string, latest1: Option<int>, fetched1: Option<seq<Log>>,
                           fault1: WriteFault, latest2: Option<int>, fetched2: Option<seq<Log>>, fault2: WriteFault,
                           now1: Millis, now2: Millis)
    requires Cycle(s, identifier, latest1, fetched1, fault1, now1).1.Scanned?
    requires Cycle(Cycle(s, identifier, latest1, fetched1, fault1, now1).0, identifier, latest2, fetched2, fault2, now2).1.Scanned?
    ensures Cycle(Cycle(s, identifier, latest1, fetched1, fault1, now1).0, identifier, latest2, fetched2, fault2, now2).1.range.from
         == Cycle(s, identifier, latest1, fetched1, fault1, now1).1.range.to + 1
  {
    var (t, o1) := Cycle(s, identifier, latest1, fetched1, fault1, now1);
    assert HeightBefore(t, identifier) == o1.range.to >= 0;
  }

  /** A cycle that fails on a provider call performs no work: jobs and checkpoints stay as they were. */
  lemma FailedCycleOnlyBacksOff(s: CycleState, identifier: string, latest: Option<int>, fetched: Option<seq<Log>>,
                                fault: WriteFault, now: Millis)
    requires identifier in s.checkpoints && (latest.None? || fetched.None?)
    requires Cycle(s, identifier, latest, fetched, fault, now).1.Failed?
    ensures Cycle(s, identifier, latest, fetched, fault, now).0 == s
    ensures SleepMs(Cycle(s, identifier, latest, fetched, fault, now).1) == ERROR_BACKOFF_MS
  {
  }

  /** With the checkpoint at 100 and the head at 110, the cycle scans blocks 101 to 104. */
  lemma ScanRangeExample()
    ensures ScanRange(100, 110) == Some(BlockRange(101, 104))
    ensures ScanRange(104, 110).None?
    ensures ScanRange(DEFAULT_START_BLOCK, DEFAULT_START_BLOCK + 1000) == Some(BlockRange(3_044_276, 3_044_475))
  {
  }

  // ---------------------------------------------------------------------------
  // The cycle as written: the insert builders are never run

  /** The faults left when no job insert runs: a job-insert fault has nothing to hit. */
  function WithoutJobInserts(fault: WriteFault): (f: WriteFault)
    ensures !f.JobInsertFails?
    ensures !fault.JobInsertFails? ==> f == fault
  {
    if fault.JobInsertFails? then NoFault else fault
  }

  /**
   * The cycle as the source writes it: `db.insert(pendingJobs).values(...)` is built but
   * neither awaited nor `.run()`, so no job row is written, while the checkpoint still advances.
   */
  function CycleAsWritten(s: CycleState, identifier: string, latest: Option<int>, fetched: Option<seq<Log>>,
                          fault: WriteFault, now: Millis): (r: (CycleState, CycleOutcome))
    ensures r.0.jobs == s.jobs && r.0.nextId == s.nextId
    ensures r.1 == Cycle(s, identifier, latest, fetched, WithoutJobInserts(fault), now).1
    ensures r.0.checkpoints == Cycle(s, identifier, latest, fetched, WithoutJobInserts(fault), now).0.checkpoints
  {
    var (t, o) := Cycle(s, identifier, latest, fetched, WithoutJobInserts(fault), now);
    (t.(jobs := s.jobs, nextId := s.nextId), o)
  }

  /**
   * A log of block 102 is fetched while the checkpoint moves past it to 104: the written
   * cycle leaves no job for it and every later range starts after it, so it is never
   * enqueued; the corrected cycle enqueues it.
   */
  lemma AsWrittenCycleLosesLog(latestLater: int)
    ensures var s := CycleState(map["FSFILEREGISTRY" := 100], [], 0);
      var l := Log(102, Some(0), "0xabc", "SenderApproved");
      var (t, o) := CycleAsWritten(s, "FSFILEREGISTRY", Some(110), Some([l]), NoFault, 0);
      && o == Scanned(BlockRange(101, 104), 1)
      && t.jobs == []
      && t.checkpoints["FSFILEREGISTRY"] == 104
      && (ScanRange(104, latestLater).Some? ==> ScanRange(104, latestLater).value.from > l.blockNumber)
      && Cycle(s, "FSFILEREGISTRY", Some(110), Some([l]), NoFault, 0).0.jobs
         == [NewJob(0, EventJobType("FSFILEREGISTRY", "SenderApproved"), EventLog(l), 0)]
  {
    var s := CycleState(map["FSFILEREGISTRY" := 100], [], 0);
    var l := Log(102, Some(0), "0xabc", "SenderApproved");
    assert ScanRange(100, 110) == Some(BlockRange(101, 104));
    assert SortLogs([l]) == [l] by {
      assert multiset(SortLogs([l])) == multiset{l};
      assert |SortLogs([l])| == 1;
      assert SortLogs([l])[0] in multiset(SortLogs([l]));
    }
    assert EventJobs("FSFILEREGISTRY", [l], 0, 0) == [NewJob(0, EventJobType("FSFILEREGISTRY", "SenderApproved"), EventLog(l), 0)];
  }
}
