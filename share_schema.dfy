/**
 * The share-capability tables of lib/db/schema/shareCapability.ts: approvals (one per
 * recipient/sender pair), the approval history (one entry per transaction hash and
 * block) and share requests (a five-valued status, PENDING by default). The unique
 * indexes are table invariants; an insert that would break one is refused, as SQLite
 * refuses it. Address columns hold the checksummed text `tEvmAddress` writes.
 */
module ShareSchema {
  import opened Wrappers

  // ---------------------------------------------------------------------------
  // share_approvals

  datatype ShareApproval = ShareApproval(
    id: nat,
    recipientWallet: string,
    senderWallet: string,
    active: bool,
    lastChangedBlock: Option<int>,
    lastTxHash: Option<string>)

  /** An approval row as an insert of the two wallets produces it. */
  function NewApproval(id: nat, recipient: string, sender: string): (a: ShareApproval)
    ensures !a.active && a.lastChangedBlock.None? && a.lastTxHash.None?
    ensures a.id == id && a.recipientWallet == recipient && a.senderWallet == sender
  {
    ShareApproval(id, recipient, sender, false, None, None)
  }

  /** `ux_share_approvals_recipient_sender`: no two rows share a (recipient, sender) pair. */
  predicate UniquePairs(rows: seq<ShareApproval>)
  {
    forall i, j :: 0 <= i < j < |rows| ==>
      (rows[i].recipientWallet, rows[i].senderWallet) != (rows[j].recipientWallet, rows[j].senderWallet)
  }

  predicate HasPair(rows: seq<ShareApproval>, recipient: string, sender: string)
  {
    exists k :: 0 <= k < |rows| && rows[k].recipientWallet == recipient && rows[k].senderWallet == sender
  }

  /**
   * An insert under the unique index and the two foreign keys: refused (`None`) when the
   * pair is taken, or when the recipient or the sender has no `users` row. `registered`
   * is the set of stored `users.walletAddress` values; the database runs with foreign
   * keys on.
   */
  function InsertApproval(rows: seq<ShareApproval>, registered: set<string>, id: nat, recipient: string, sender: string)
    : (r: Option<seq<ShareApproval>>)
    ensures r.None? <==> HasPair(rows, recipient, sender) || recipient !in registered || sender !in registered
    ensures r.Some? ==> r.value == rows + [NewApproval(id, recipient, sender)]
    ensures UniquePairs(rows) && r.Some? ==> UniquePairs(r.value) && HasPair(r.value, recipient, sender)
  {
    if HasPair(rows, recipient, sender) || recipient !in registered || sender !in registered then None
    else
      var added := rows + [NewApproval(id, recipient, sender)];
      assert added[|rows|].recipientWallet == recipient && added[|rows|].senderWallet == sender;
      Some(added)
  }

  // ---------------------------------------------------------------------------
  // share_approval_history

  datatype HistoryAction = Enabled | Revoked

  /** The text stored in the `action` column; its enum admits exactly these two values. */
  function ActionText(a: HistoryAction): string
  {
    match a
    case Enabled => "ENABLED"
    case Revoked => "REVOKED"
  }

  function ActionFromText(s: string): (r: Option<HistoryAction>)
    ensures r.Some? <==> s == "ENABLED" || s == "REVOKED"
    ensures r.Some? ==> ActionText(r.value) == s
  {
    if s == "ENABLED" then Some(Enabled)
    else if s == "REVOKED" then Some(Revoked)
    else None
  }

  lemma ActionRoundTrip(a: HistoryAction)
    ensures ActionFromText(ActionText(a)) == Some(a)
  {
  }

  datatype ApprovalHistory = ApprovalHistory(
    id: nat,
    approvalId: string,
    action: HistoryAction,
    txHash: string,
    blockNumber: int,
    createdAt: int)

  /** `ux_share_approval_history_tx`: at most one entry per (txHash, blockNumber). */
  predicate UniqueTxBlocks(rows: seq<ApprovalHistory>)
  {
    forall i, j :: 0 <= i < j < |rows| ==>
      (rows[i].txHash, rows[i].blockNumber) != (rows[j].txHash, rows[j].blockNumber)
  }

  predicate HasTxBlock(rows: seq<ApprovalHistory>, txHash: string, blockNumber: int)
  {
    exists k :: 0 <= k < |rows| && rows[k].txHash == txHash && rows[k].blockNumber == blockNumber
  }

  /** An insert under the unique index: refused when that transaction and block are already recorded. */
  function InsertHistory(rows: seq<ApprovalHistory>, entry: ApprovalHistory): (r: Option<seq<ApprovalHistory>>)
    ensures r.None? <==> HasTxBlock(rows, entry.txHash, entry.blockNumber)
    ensures r.Some? ==> r.value == rows + [entry]
    ensures UniqueTxBlocks(rows) && r.Some? ==> UniqueTxBlocks(r.value)
  {
    if HasTxBlock(rows, entry.txHash, entry.blockNumber) then None else Some(rows + [entry])
  }

  // ---------------------------------------------------------------------------
  // share_requests

  datatype RequestStatus = Pending | Accepted | Rejected | Cancelled | Expired

  const DEFAULT_STATUS: RequestStatus := Pending

  /** The text stored in the `status` column. */
  function StatusText(s: RequestStatus): string
  {
    match s
    case Pending => "PENDING"
    case Accepted => "ACCEPTED"
    case Rejected => "REJECTED"
    case Cancelled => "CANCELLED"
    case Expired => "EXPIRED"
  }

  function StatusFromText(t: string): (r: Option<RequestStatus>)
    ensures r.Some? <==> t in {"PENDING", "ACCEPTED", "REJECTED", "CANCELLED", "EXPIRED"}
    ensures r.Some? ==> StatusText(r.value) == t
  {
    if t == "PENDING" then Some(Pending)
    else if t == "ACCEPTED" then Some(Accepted)
    else if t == "REJECTED" then Some(Rejected)
    else if t == "CANCELLED" then Some(Cancelled)
    else if t == "EXPIRED" then Some(Expired)
    else None
  }

  /** Status text round-trips, so distinct statuses are stored as distinct text. */
  lemma StatusRoundTrip(s: RequestStatus, t: RequestStatus)
    ensures StatusFromText(StatusText(s)) == Some(s)
    ensures StatusText(s) == StatusText(t) ==> s == t
  {
    assert StatusFromText(StatusText(t)) == Some(t);
  }

  datatype ShareRequest = ShareRequest(
    id: nat,
    senderWallet: string,
    recipientWallet: string,
    status: RequestStatus,
    message: Option<string>,
    metadata: Option<string>,
    createdAt: int)

  /** A request row as an insert without a status produces it. */
  function NewRequest(id: nat, sender: string, recipient: string, message: Option<string>,
                      metadata: Option<string>, now: int): (r: ShareRequest)
    ensures r.status == Pending && r.id == id && r.createdAt == now
    ensures r.senderWallet == sender && r.recipientWallet == recipient
    ensures r.message == message && r.metadata == metadata
  {
    ShareRequest(id, sender, recipient, DEFAULT_STATUS, message, metadata, now)
  }

  predicate UniqueRequestIds(rows: seq<ShareRequest>)
  {
    forall i, j :: 0 <= i < j < |rows| ==> rows[i].id != rows[j].id
  }

  predicate RequestIdsBelow(rows: seq<ShareRequest>, bound: nat)
  {
    forall i :: 0 <= i < |rows| ==> rows[i].id < bound
  }

  // ---------------------------------------------------------------------------
  // The tables

  class ShareApprovals {
    var rows: seq<ShareApproval>

    ghost predicate Valid()
      reads this
    {
      UniquePairs(rows)
    }

    constructor ()
      ensures Valid() && rows == []
    {
      rows := [];
    }
  }

  class ShareRequests {
    var rows: seq<ShareRequest>
    var nextId: nat

    ghost predicate Valid()
      reads this
    {
      UniqueRequestIds(rows) && RequestIdsBelow(rows, nextId)
    }

    constructor ()
      ensures Valid() && rows == [] && nextId == 0
    {
      rows := [];
      nextId := 0;
    }
  }
}
