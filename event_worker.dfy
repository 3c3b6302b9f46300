/**
 * lib/indexer/worker.ts: `processJob` interprets a file-registry event job. Job types
 * that start with `FSFILEREGISTRY_EVENT_` name an event; `SenderApproved` and
 * `SenderRevoked` overwrite `active`, `lastChangedBlock` and `lastTxHash` of the share
 * approvals. The update has no WHERE clause, so it applies to every approval row.
 * The job's payload is read as the stored log; a key whose value is undefined is left
 * out of the SET list, as drizzle omits undefined values.
 */
module EventWorker {
  import opened Wrappers
  import opened SysSchema
  import opened ShareSchema

  const FILE_REGISTRY_PREFIX: string := "FSFILEREGISTRY_EVENT_"

  predicate StartsWith(s: string, prefix: string)
  {
    |prefix| <= |s| && s[..|prefix|] == prefix
  }

  /** `pattern` occurs in `s` starting at position `k`. */
  predicate OccursAt(s: string, pattern: string, k: nat)
  {
    k + |pattern| <= |s| && s[k..k + |pattern|] == pattern
  }

  lemma OccursShift(s: string, pattern: string, k: nat)
    requires |s| > 0
    ensures OccursAt(s, pattern, k + 1) <==> OccursAt(s[1..], pattern, k)
  {
    if k + 1 + |pattern| <= |s| {
      assert s[k + 1..k + 1 + |pattern|] == s[1..][k..k + |pattern|];
    }
  }

  /** The first position at which `pattern` occurs in `s`, as `indexOf` finds it. */
  function IndexOf(s: string, pattern: string): (r: Option<nat>)
    ensures r.Some? ==> OccursAt(s, pattern, r.value)
    ensures r.Some? ==> forall k: nat :: k < r.value ==> !OccursAt(s, pattern, k)
    ensures r.None? ==> forall k: nat :: !OccursAt(s, pattern, k)
    decreases |s|
  {
    if |pattern| > |s| then None
    else if s[..|pattern|] == pattern then Some(0)
    else
      assert !OccursAt(s, pattern, 0);
      match IndexOf(s[1..], pattern)
      case None =>
        assert forall k: nat :: !OccursAt(s, pattern, k) by {
          forall k: nat ensures !OccursAt(s, pattern, k) {
            if k > 0 { OccursShift(s, pattern, k - 1); }
          }
        }
        None
      case Some(i) =>
        OccursShift(s, pattern, i);
        assert forall k: nat :: k < i + 1 ==> !OccursAt(s, pattern, k) by {
          forall k: nat | k < i + 1 ensures !OccursAt(s, pattern, k) {
            if k > 0 { OccursShift(s, pattern, k - 1); }
          }
        }
        Some(i + 1)
  }

  /** `s.replace(pattern, replacement)` with a string pattern: only the first occurrence is replaced. */
  function ReplaceFirst(s: string, pattern: string, replacement: string): string
  {
    match IndexOf(s, pattern)
    case None => s
    case Some(i) => s[..i] + replacement + s[i + |pattern|..]
  }

  /** The event name is the job type with its prefix cut off. */
  lemma EventNameIsSuffix(jobType: string)
    requires StartsWith(jobType, FILE_REGISTRY_PREFIX)
    ensures ReplaceFirst(jobType, FILE_REGISTRY_PREFIX, "") == jobType[|FILE_REGISTRY_PREFIX|..]
  {
    assert jobType[..|FILE_REGISTRY_PREFIX|] == FILE_REGISTRY_PREFIX;
    assert IndexOf(jobType, FILE_REGISTRY_PREFIX) == Some(0);
  }

  /** The SET list of the approval update; `None` marks a key the statement omits. */
  datatype ApprovalSet = ApprovalSet(active: bool, lastChangedBlock: Option<int>, lastTxHash: Option<string>)

  function ApplyApprovalSet(a: ShareApproval, s: ApprovalSet): ShareApproval
  {
    a.(active := s.active,
       lastChangedBlock := if s.lastChangedBlock.Some? then s.lastChangedBlock else a.lastChangedBlock,
       lastTxHash := if s.lastTxHash.Some? then s.lastTxHash else a.lastTxHash)
  }

  /** The update `processJob` builds for a job, if any: the dispatch on prefix and event name. */
  function StatementFor(job: Job): (r: Option<ApprovalSet>)
    ensures r.Some? ==> StartsWith(job.jobType, FILE_REGISTRY_PREFIX)
    ensures r.Some? ==> var name := job.jobType[|FILE_REGISTRY_PREFIX|..];
      (name == "SenderApproved" && r.value.active) || (name == "SenderRevoked" && !r.value.active)
    ensures StartsWith(job.jobType, FILE_REGISTRY_PREFIX) ==>
      var name := job.jobType[|FILE_REGISTRY_PREFIX|..];
      (r.Some? <==> name == "SenderApproved" || name == "SenderRevoked")
    ensures r.Some? && job.payload.EventLog? ==>
      r.value.lastChangedBlock == Some(job.payload.log.blockNumber) && r.value.lastTxHash == Some(job.payload.log.transactionHash)
    ensures r.Some? && !job.payload.EventLog? ==> r.value.lastChangedBlock.None? && r.value.lastTxHash.None?
  {
    if !StartsWith(job.jobType, FILE_REGISTRY_PREFIX) then None
    else
      EventNameIsSuffix(job.jobType);
      var eventName := ReplaceFirst(job.jobType, FILE_REGISTRY_PREFIX, "");
      var block := if job.payload.EventLog? then Some(job.payload.log.blockNumber) else None;
      var txHash := if job.payload.EventLog? then Some(job.payload.log.transactionHash) else None;
      if eventName == "SenderApproved" then Some(ApprovalSet(true, block, txHash))
      else if eventName == "SenderRevoked" then Some(ApprovalSet(false, block, txHash))
      else None
  }

  /** `UPDATE share_approvals SET ...` with no WHERE: every row takes the SET list. */
  function UpdateAll(rows: seq<ShareApproval>, s: ApprovalSet): (r: seq<ShareApproval>)
    ensures |r| == |rows|
    ensures forall k :: 0 <= k < |rows| ==> r[k] == ApplyApprovalSet(rows[k], s)
  {
    seq(|rows|, k requires 0 <= k < |rows| => ApplyApprovalSet(rows[k], s))
  }

  /** The approvals after processing `job` with its update executed. */
  function ProcessedRows(rows: seq<ShareApproval>, job: Job): seq<ShareApproval>
  {
    match StatementFor(job)
    case None => rows
    case Some(s) => UpdateAll(rows, s)
  }

  /** `processJob`, with the statement it builds executed. */
  method ProcessJob(approvals: ShareApprovals, job: Job)
    requires approvals.Valid()
    modifies approvals
    ensures approvals.Valid()
    ensures approvals.rows == ProcessedRows(old(approvals.rows), job)
  {
    var statement := StatementFor(job);
    if statement.Some? {
      ProcessingKeepsPairs(approvals.rows, job);
      approvals.rows := UpdateAll(approvals.rows, statement.value);
    }
  }

  // ---------------------------------------------------------------------------
  // Properties

  /** A job type without the file-registry prefix changes nothing. */
  lemma OnlyPrefixActs(rows: seq<ShareApproval>, job: Job)
    requires !StartsWith(job.jobType, FILE_REGISTRY_PREFIX)
    ensures ProcessedRows(rows, job) == rows
  {
  }

  /** Events other than the two approval events change nothing. */
  lemma OtherEventsChangeNothing(rows: seq<ShareApproval>, job: Job)
    requires StartsWith(job.jobType, FILE_REGISTRY_PREFIX)
    requires job.jobType[|FILE_REGISTRY_PREFIX|..] != "SenderApproved"
    requires job.jobType[|FILE_REGISTRY_PREFIX|..] != "SenderRevoked"
    ensures ProcessedRows(rows, job) == rows
  {
  }

  /**
   * `SenderApproved` (resp. `SenderRevoked`) with a log payload sets every approval active
   * (resp. inactive) at the log's block and transaction, and keeps each row's keys.
   */
  lemma ApprovalEventOverwrites(rows: seq<ShareApproval>, job: Job, active: bool)
    requires job.payload.EventLog?
    requires job.jobType == FILE_REGISTRY_PREFIX + (if active then "SenderApproved" else "SenderRevoked")
    ensures var r := ProcessedRows(rows, job);
      && |r| == |rows|
      && forall k :: 0 <= k < |rows| ==>
        && r[k].active == active
        && r[k].lastChangedBlock == Some(job.payload.log.blockNumber)
        && r[k].lastTxHash == Some(job.payload.log.transactionHash)
        && r[k].id == rows[k].id
        && r[k].recipientWallet == rows[k].recipientWallet && r[k].senderWallet == rows[k].senderWallet
  {
    assert StartsWith(job.jobType, FILE_REGISTRY_PREFIX);
    assert job.jobType[|FILE_REGISTRY_PREFIX|..] == (if active then "SenderApproved" else "SenderRevoked");
  }

  /** Processing the same job twice leaves the state of processing it once: the updates are plain overwrites. */
  lemma ProcessIdempotent(rows: seq<ShareApproval>, job: Job)
    ensures ProcessedRows(ProcessedRows(rows, job), job) == ProcessedRows(rows, job)
  {
    match StatementFor(job)
    case None =>
    case Some(s) =>
      var once := UpdateAll(rows, s);
      assert forall k :: 0 <= k < |rows| ==> UpdateAll(once, s)[k] == once[k];
  }

  /** Of two approval events with log payloads, the later one alone decides the state. */
  lemma LastEventWins(rows: seq<ShareApproval>, first: Job, second: Job)
    requires StatementFor(first).Some? && StatementFor(second).Some? && second.payload.EventLog?
    ensures ProcessedRows(ProcessedRows(rows, first), second) == ProcessedRows(rows, second)
  {
    var s1 := StatementFor(first).value;
    var s2 := StatementFor(second).value;
    var once := UpdateAll(rows, s1);
    assert forall k :: 0 <= k < |rows| ==> UpdateAll(once, s2)[k] == UpdateAll(rows, s2)[k];
  }

  /** Processing never changes a wallet pair, so the approvals' unique index keeps holding. */
  lemma ProcessingKeepsPairs(rows: seq<ShareApproval>, job: Job)
    requires UniquePairs(rows)
    ensures UniquePairs(ProcessedRows(rows, job))
  {
    var r := ProcessedRows(rows, job);
    assert forall k :: 0 <= k < |rows| ==>
      r[k].recipientWallet == rows[k].recipientWallet && r[k].senderWallet == rows[k].senderWallet;
  }

  // ---------------------------------------------------------------------------
  // The worker as written: the update builders are never executed

  /**
   * `processJob` as the source writes it: `db.update(...).set(...)` is neither awaited nor
   * `.run()`, so the approvals stay as they were whatever the job.
   */
  function ProcessedRowsAsWritten(rows: seq<ShareApproval>, job: Job): (r: seq<ShareApproval>)
    ensures r == rows
  {
    var _ := StatementFor(job);
    rows
  }

  /** A `SenderApproved` event leaves an inactive approval inactive as written; executed, it activates it. */
  lemma AsWrittenApprovalIgnored()
    ensures var rows := [NewApproval(0, "0xR", "0xS")];
      var job := NewJob(7, FILE_REGISTRY_PREFIX + "SenderApproved", EventLog(Log(42, Some(0), "0xabc", "SenderApproved")), 0);
      && !ProcessedRowsAsWritten(rows, job)[0].active
      && ProcessedRows(rows, job)[0].active
      && ProcessedRows(rows, job)[0].lastChangedBlock == Some(42)
  {
    var rows := [NewApproval(0, "0xR", "0xS")];
    var job := NewJob(7, FILE_REGISTRY_PREFIX + "SenderApproved", EventLog(Log(42, Some(0), "0xabc", "SenderApproved")), 0);
    ApprovalEventOverwrites(rows, job, true);
  }
}
