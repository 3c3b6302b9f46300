/**
 * api/routes/requests/index.ts: the share-request handlers behind `authSigned`. `wallet`
 * is the address the middleware put in `userWallet`. viem's `isAddress` and
 * `getAddress` are foreign and come in as an `AddressBook`; `getAddress` also stands for
 * `checksumAddress`, which `tEvmAddress` applies to every address it writes or compares,
 * and for `getAddress` in `tEvmAddress.fromDriver`, which it applies to every address it
 * reads back. `registered` is the set of `users.walletAddress` values: the database runs
 * with foreign keys on, and `share_requests.senderWallet` references that column.
 * `enqueueJob` is the job runner's.
 */
module RequestRoutes {
  import opened Wrappers
  import opened SysSchema
  import opened ShareSchema
  import JobRunnerScheduler
  import Sorting
  import Lookup

  const MAX_MESSAGE_LENGTH: nat := 500
  const CREATED_JOB_TYPE: string := "NOTIFY:request:created"
  const CANCELLED_JOB_TYPE: string := "request:cancelled"

  datatype AddressBook = AddressBook(isAddress: string -> bool, getAddress: string -> string)

  /** A handler's reply: a success status with its body, or an error status. */
  datatype Reply<T> = Ok(code: int, body: T) | Err(code: int)

  /** `tEvmAddress.toDriver`: the checksummed text stored for a valid address. */
  function StoredAddress(book: AddressBook, address: string): string
  {
    book.getAddress(address)
  }

  /** `tEvmAddress.fromDriver`: the address a select hands back for a stored text. */
  function ReadAddress(book: AddressBook, stored: string): string
  {
    book.getAddress(stored)
  }

  /** `s.slice(0, n)`. */
  function Truncate(s: string, n: nat): (r: string)
    ensures |r| <= n && |r| <= |s| && r == s[..|r|]
    ensures |s| <= n ==> r == s
  {
    if |s| <= n then s else s[..n]
  }

  // ---------------------------------------------------------------------------
  // POST /

  /** A `recipientWallet` the handler accepts: present, non-empty and a valid address. */
  predicate ValidRecipient(book: AddressBook, recipientWallet: Option<string>)
  {
    recipientWallet.Some? && recipientWallet.value != "" && book.isAddress(recipientWallet.value)
  }

  /**
   * The error status of a create, in the handler's order: 400 for a missing or invalid
   * recipient, 400 for a request to oneself, 500 when `message.toString()` throws on a
   * missing message, 500 when the insert violates the sender's foreign key (the caller
   * has no `users` row); `None` when the request is inserted.
   */
  function CreateError(book: AddressBook, registered: set<string>, wallet: string,
                       recipientWallet: Option<string>, message: Option<string>): (r: Option<int>)
    ensures r.None? <==>
      && ValidRecipient(book, recipientWallet) && book.getAddress(recipientWallet.value) != wallet
      && message.Some? && StoredAddress(book, wallet) in registered
    ensures r == Some(400) <==>
      !ValidRecipient(book, recipientWallet) || book.getAddress(recipientWallet.value) == wallet
    ensures r == Some(500) <==>
      && ValidRecipient(book, recipientWallet) && book.getAddress(recipientWallet.value) != wallet
      && (message.None? || StoredAddress(book, wallet) !in registered)
  {
    if !ValidRecipient(book, recipientWallet) then Some(400)
    else if book.getAddress(recipientWallet.value) == wallet then Some(400)
    else if message.None? then Some(500)
    else if StoredAddress(book, wallet) !in registered then Some(500)
    else None
  }

  /** The row a successful create inserts. */
  function CreatedRow(book: AddressBook, id: nat, wallet: string, recipientWallet: string, message: string,
                      metadata: Option<string>, now: Millis): ShareRequest
  {
    NewRequest(id, StoredAddress(book, wallet), StoredAddress(book, book.getAddress(recipientWallet)),
               Some(Truncate(message, MAX_MESSAGE_LENGTH)), metadata, now)
  }

  method CreateRequest(requests: ShareRequests, jobs: PendingJobs, book: AddressBook,
                       registered: set<string>, wallet: string, recipientWallet: Option<string>,
                       message: Option<string>, metadata: Option<string>,
                       now: Millis) returns (reply: Reply<ShareRequest>)
    requires requests.Valid() && jobs.Valid()
    modifies requests, jobs
    ensures requests.Valid() && jobs.Valid()
    ensures CreateError(book, registered, wallet, recipientWallet, message).Some? ==>
      && reply == Err(CreateError(book, registered, wallet, recipientWallet, message).value)
      && requests.rows == old(requests.rows) && requests.nextId == old(requests.nextId)
      && jobs.rows == old(jobs.rows) && jobs.nextId == old(jobs.nextId)
    ensures CreateError(book, registered, wallet, recipientWallet, message).None? ==>
      var row := CreatedRow(book, old(requests.nextId), wallet, recipientWallet.value, message.value, metadata, now);
      && reply == Ok(201, row)
      && requests.rows == old(requests.rows) + [row] && requests.nextId == old(requests.nextId) + 1
      && jobs.rows == old(jobs.rows) + [NewJob(old(jobs.nextId), CREATED_JOB_TYPE, RequestRef(row.id), now)]
      && jobs.nextId == old(jobs.nextId) + 1
  {
    if recipientWallet.None? || recipientWallet.value == "" || !book.isAddress(recipientWallet.value) {
      return Err(400);
    }
    var recipient := book.getAddress(recipientWallet.value);
    if recipient == wallet {
      return Err(400);
    }
    if message.None? {
      return Err(500);
    }
    if StoredAddress(book, wallet) !in registered {
      return Err(500);
    }
    var row := NewRequest(requests.nextId, StoredAddress(book, wallet), StoredAddress(book, recipient),
                          Some(Truncate(message.value, MAX_MESSAGE_LENGTH)), metadata, now);
    requests.rows := requests.rows + [row];
    requests.nextId := requests.nextId + 1;
    var _ := JobRunnerScheduler.EnqueueJob(jobs, CREATED_JOB_TYPE, RequestRef(row.id), now);
    reply := Ok(201, row);
  }

  /** A created request is pending, carries at most 500 characters of its message, and is new to the table. */
  lemma CreatedRowIsPending(book: AddressBook, requests: seq<ShareRequest>, nextId: nat, wallet: string,
                            recipientWallet: string, message: string, metadata: Option<string>, now: Millis)
    requires UniqueRequestIds(requests) && RequestIdsBelow(requests, nextId)
    ensures var row := CreatedRow(book, nextId, wallet, recipientWallet, message, metadata, now);
      && row.status == Pending && row.message.Some?
      && |row.message.value| <= MAX_MESSAGE_LENGTH && row.message.value == message[..|row.message.value|]
      && UniqueRequestIds(requests + [row]) && RequestIdsBelow(requests + [row], nextId + 1)
  {
  }

  // ---------------------------------------------------------------------------
  // GET /pending

  predicate PendingTo(r: ShareRequest, recipient: string)
  {
    r.recipientWallet == recipient && r.status == Pending
  }

  /** `WHERE recipientWallet = ? AND status = 'PENDING'`, in table order. */
  function PendingRows(rows: seq<ShareRequest>, recipient: string): (r: seq<ShareRequest>)
    ensures forall x :: x in r <==> x in rows && PendingTo(x, recipient)
    ensures forall x :: multiset(r)[x] == if PendingTo(x, recipient) then multiset(rows)[x] else 0
    decreases |rows|
  {
    if rows == [] then []
    else
      var rest := PendingRows(rows[1..], recipient);
      assert rows == [rows[0]] + rows[1..];
      (if PendingTo(rows[0], recipient) then [rows[0]] else []) + rest
  }

  function CreatedKey(r: ShareRequest): (int, int)
  {
    (r.createdAt, 0)
  }

  /** The rows of `GET /pending`: the caller's pending requests, ordered by `createdAt`. */
  function PendingList(rows: seq<ShareRequest>, recipient: string): seq<ShareRequest>
  {
    Sorting.SortByKey(PendingRows(rows, recipient), CreatedKey)
  }

  /** The list holds exactly the caller's pending requests, each once, oldest first. */
  lemma PendingListCorrect(rows: seq<ShareRequest>, recipient: string)
    ensures forall x :: x in PendingList(rows, recipient) <==> x in rows && PendingTo(x, recipient)
    ensures multiset(PendingList(rows, recipient)) == multiset(PendingRows(rows, recipient))
    ensures forall x :: multiset(PendingList(rows, recipient))[x] == if PendingTo(x, recipient) then multiset(rows)[x] else 0
    ensures forall i, j :: 0 <= i < j < |PendingList(rows, recipient)| ==>
      PendingList(rows, recipient)[i].createdAt <= PendingList(rows, recipient)[j].createdAt
  {
    var p := PendingRows(rows, recipient);
    Sorting.SortByKeyCorrect(p, CreatedKey);
    var l := PendingList(rows, recipient);
    forall x ensures x in l <==> x in p {
      assert x in l <==> x in multiset(l);
    }
    forall i, j | 0 <= i < j < |l| ensures l[i].createdAt <= l[j].createdAt {
      assert Sorting.KeyLe(CreatedKey(l[i]), CreatedKey(l[j]));
    }
  }

  /** The handler compares the stored recipient with the caller's address as `tEvmAddress` writes it. */
  method ListPending(requests: ShareRequests, book: AddressBook, wallet: string) returns (reply: Reply<seq<ShareRequest>>)
    ensures reply == Ok(200, PendingList(requests.rows, StoredAddress(book, wallet)))
  {
    reply := Ok(200, PendingList(requests.rows, StoredAddress(book, wallet)));
  }

  // ---------------------------------------------------------------------------
  // DELETE /:id/cancel

  function RequestKey(r: ShareRequest): nat
  {
    r.id
  }

  /** The position of the request with primary key `id`. */
  function FindRequest(rows: seq<ShareRequest>, id: nat): (r: Option<nat>)
    ensures r.None? <==> forall k :: 0 <= k < |rows| ==> rows[k].id != id
    ensures r.Some? ==> r.value < |rows| && rows[r.value].id == id
  {
    Lookup.FindByKey(rows, RequestKey, id)
  }

  /**
   * The error status of a cancel, in the handler's order: 400 without an id, 404 for an
   * unknown id, 403 unless the caller is the sender (the handler applies `getAddress` to the
   * address the select read back), 409 unless the request is pending.
   */
  function CancelError(rows: seq<ShareRequest>, book: AddressBook, wallet: string, id: Option<nat>): (r: Option<int>)
    ensures r == Some(400) <==> id.None?
    ensures r == Some(404) <==> id.Some? && FindRequest(rows, id.value).None?
    ensures r == Some(403) <==>
      (id.Some? && FindRequest(rows, id.value).Some?
       && book.getAddress(ReadAddress(book, rows[FindRequest(rows, id.value).value].senderWallet)) != wallet)
    ensures r == Some(409) <==>
      (id.Some? && FindRequest(rows, id.value).Some?
       && book.getAddress(ReadAddress(book, rows[FindRequest(rows, id.value).value].senderWallet)) == wallet
       && rows[FindRequest(rows, id.value).value].status != Pending)
    ensures r.None? ==>
      (id.Some? && FindRequest(rows, id.value).Some?
       && rows[FindRequest(rows, id.value).value].status == Pending)
  {
    if id.None? then Some(400)
    else match FindRequest(rows, id.value)
      case None => Some(404)
      case Some(i) =>
        if book.getAddress(ReadAddress(book, rows[i].senderWallet)) != wallet then Some(403)
        else if rows[i].status != Pending then Some(409)
        else None
  }

  /** `UPDATE share_requests SET status = ? WHERE id = ?`. */
  function SetStatusWhereId(rows: seq<ShareRequest>, id: nat, status: RequestStatus): (r: seq<ShareRequest>)
    ensures |r| == |rows|
    ensures forall k :: 0 <= k < |rows| ==> r[k] == if rows[k].id == id then rows[k].(status := status) else rows[k]
  {
    seq(|rows|, k requires 0 <= k < |rows| => if rows[k].id == id then rows[k].(status := status) else rows[k])
  }

  method CancelRequest(requests: ShareRequests, jobs: PendingJobs, book: AddressBook, wallet: string,
                       id: Option<nat>, now: Millis) returns (reply: Reply<nat>)
    requires requests.Valid() && jobs.Valid()
    modifies requests, jobs
    ensures requests.Valid() && jobs.Valid() && requests.nextId == old(requests.nextId)
    ensures CancelError(old(requests.rows), book, wallet, id).Some? ==>
      && reply == Err(CancelError(old(requests.rows), book, wallet, id).value)
      && requests.rows == old(requests.rows)
      && jobs.rows == old(jobs.rows) && jobs.nextId == old(jobs.nextId)
    ensures CancelError(old(requests.rows), book, wallet, id).None? ==>
      && reply == Ok(200, id.value)
      && requests.rows == SetStatusWhereId(old(requests.rows), id.value, Cancelled)
      && jobs.rows == old(jobs.rows) + [NewJob(old(jobs.nextId), CANCELLED_JOB_TYPE, RequestRefText(id.value), now)]
      && jobs.nextId == old(jobs.nextId) + 1
  {
    if id.None? {
      return Err(400);
    }
    var found := FindRequest(requests.rows, id.value);
    if found.None? {
      return Err(404);
    }
    var row := requests.rows[found.value];
    if book.getAddress(ReadAddress(book, row.senderWallet)) != wallet {
      return Err(403);
    }
    if row.status != Pending {
      return Err(409);
    }
    requests.rows := SetStatusWhereId(requests.rows, id.value, Cancelled);
    var _ := JobRunnerScheduler.EnqueueJob(jobs, CANCELLED_JOB_TYPE, RequestRefText(id.value), now);
    reply := Ok(200, id.value);
  }

  /** A successful cancel changes exactly the status of that one request, to CANCELLED. */
  lemma CancelChangesOneRow(rows: seq<ShareRequest>, book: AddressBook, wallet: string, id: nat)
    requires UniqueRequestIds(rows) && CancelError(rows, book, wallet, Some(id)).None?
    ensures var i := FindRequest(rows, id).value;
      SetStatusWhereId(rows, id, Cancelled) == rows[i := rows[i].(status := Cancelled)]
  {
    var i := FindRequest(rows, id).value;
    var r := SetStatusWhereId(rows, id, Cancelled);
    assert forall k :: 0 <= k < |rows| && k != i ==> rows[k].id != id;
    assert r == rows[i := rows[i].(status := Cancelled)];
  }

  /** A cancelled request cannot be cancelled again: the second attempt is a 409 conflict. */
  lemma CancelTwiceConflicts(rows: seq<ShareRequest>, book: AddressBook, wallet: string, id: nat)
    requires UniqueRequestIds(rows) && CancelError(rows, book, wallet, Some(id)).None?
    ensures CancelError(SetStatusWhereId(rows, id, Cancelled), book, wallet, Some(id)) == Some(409)
  {
    var after := SetStatusWhereId(rows, id, Cancelled);
    var i := FindRequest(rows, id).value;
    var j := FindRequest(after, id).value;
    assert after[j].id == id && rows[j].id == id;
    assert i == j;
  }

  /** Once cancelled, a request drops out of its recipient's pending list. */
  lemma CancelledNotPending(rows: seq<ShareRequest>, id: nat, recipient: string)
    ensures forall x :: x in PendingList(SetStatusWhereId(rows, id, Cancelled), recipient) ==> x.id != id
  {
    var after := SetStatusWhereId(rows, id, Cancelled);
    PendingListCorrect(after, recipient);
    forall x | x in PendingList(after, recipient) ensures x.id != id {
      var k :| 0 <= k < |after| && after[k] == x;
    }
  }
}
