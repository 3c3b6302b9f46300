/**
 * api/routes/auth/index.ts: sign-in with Ethereum. `/message` stores a challenge per
 * wallet, valid for five minutes; `/verify` takes the wallet's challenge out of the store
 * before checking its expiry and the signature, so each challenge is used at most once.
 * The module-level `messages` record is the `messages` map of a `ChallengeStore`.
 * viem's `isAddress`, `createSiweMessage` and `verifySiweMessage`, the random nonce,
 * the clock and `issueJwtToken` are foreign and come in as parameters.
 */
module AuthRoutes {
  import opened Wrappers

  const CHALLENGE_TTL_MS: int := 5 * 60 * 1000

  datatype Challenge = Challenge(message: string, validTill: int)

  /**
   * The message builder (address and nonce; chain, domain, URI and version are fixed),
   * the address check and `verifySiweMessage(message, signature, address)`.
   */
  datatype Siwe = Siwe(
    isAddress: string -> bool,
    createMessage: (string, string) -> string,
    verify: (string, string, string) -> bool)

  datatype MessageReply = MessageErr(code: int) | MessageOk(message: string, nonce: string)

  datatype VerifyReply = VerifyErr(code: int) | Verified(token: string)

  /** A field that is set and not empty (an empty string is falsy). */
  predicate Present(v: Option<string>)
  {
    v.Some? && v.value != ""
  }

  predicate ValidWallet(siwe: Siwe, wallet: Option<string>)
  {
    Present(wallet) && siwe.isAddress(wallet.value)
  }

  /** `GET /message`: the new store and the reply. */
  function IssueChallenge(messages: map<string, Challenge>, siwe: Siwe, wallet: Option<string>, nonce: string, now: int)
    : (r: (map<string, Challenge>, MessageReply))
    ensures !ValidWallet(siwe, wallet) ==> r == (messages, MessageErr(400))
    ensures ValidWallet(siwe, wallet) ==>
      && r.1 == MessageOk(siwe.createMessage(wallet.value, nonce), nonce)
      && wallet.value in r.0 && r.0[wallet.value] == Challenge(r.1.message, now + CHALLENGE_TTL_MS)
      && r.0.Keys == messages.Keys + {wallet.value}
      && forall w :: w in messages && w != wallet.value ==> r.0[w] == messages[w]
  {
    if !Present(wallet) || !siwe.isAddress(wallet.value) then (messages, MessageErr(400))
    else
      var message := siwe.createMessage(wallet.value, nonce);
      var validTill := now + CHALLENGE_TTL_MS;
      (messages[wallet.value := Challenge(message, validTill)], MessageOk(message, nonce))
  }

  /** `GET /verify`: the new store and the reply. */
  function VerifyChallenge(messages: map<string, Challenge>, siwe: Siwe, signature: Option<string>,
                           wallet: Option<string>, now: int, issueToken: string -> string)
    : (r: (map<string, Challenge>, VerifyReply))
    ensures !Present(signature) || !ValidWallet(siwe, wallet) ==> r == (messages, VerifyErr(400))
    ensures Present(signature) && ValidWallet(siwe, wallet) ==>
      && r.0 == messages - {wallet.value}
      && (r.1.Verified? <==>
            && wallet.value in messages && now <= messages[wallet.value].validTill
            && siwe.verify(messages[wallet.value].message, signature.value, wallet.value))
      && (r.1.Verified? ==> r.1.token == issueToken(wallet.value))
      && (r.1.VerifyErr? ==> r.1.code == 400)
  {
    if !Present(signature) then (messages, VerifyErr(400))
    else if !Present(wallet) || !siwe.isAddress(wallet.value) then (messages, VerifyErr(400))
    else
      var w := wallet.value;
      var found := if w in messages then Some(messages[w]) else None;
      var remaining := messages - {w};
      if found.None? || found.value.validTill < now then (remaining, VerifyErr(400))
      else if !siwe.verify(found.value.message, signature.value, w) then (remaining, VerifyErr(400))
      else (remaining, Verified(issueToken(w)))
  }

  class ChallengeStore {
    var messages: map<string, Challenge>

    constructor ()
      ensures messages == map[]
    {
      messages := map[];
    }
  }

  method GetMessage(store: ChallengeStore, siwe: Siwe, wallet: Option<string>, nonce: string, now: int)
    returns (reply: MessageReply)
    modifies store
    ensures (store.messages, reply) == IssueChallenge(old(store.messages), siwe, wallet, nonce, now)
  {
    if !Present(wallet) || !siwe.isAddress(wallet.value) {
      return MessageErr(400);
    }
    var message := siwe.createMessage(wallet.value, nonce);
    var validTill := now + CHALLENGE_TTL_MS;
    store.messages := store.messages[wallet.value := Challenge(message, validTill)];
    reply := MessageOk(message, nonce);
  }

  method Verify(store: ChallengeStore, siwe: Siwe, signature: Option<string>, wallet: Option<string>,
                now: int, issueToken: string -> string) returns (reply: VerifyReply)
    modifies store
    ensures (store.messages, reply) == VerifyChallenge(old(store.messages), siwe, signature, wallet, now, issueToken)
  {
    if !Present(signature) {
      return VerifyErr(400);
    }
    if !Present(wallet) || !siwe.isAddress(wallet.value) {
      return VerifyErr(400);
    }
    var w := wallet.value;
    var found := if w in store.messages then Some(store.messages[w]) else None;
    store.messages := store.messages - {w};
    if found.None? || found.value.validTill < now {
      return VerifyErr(400);
    }
    var valid := siwe.verify(found.value.message, signature.value, w);
    if !valid {
      return VerifyErr(400);
    }
    reply := Verified(issueToken(w));
  }

  // ---------------------------------------------------------------------------
  // Properties

  /** A challenge is one-shot: after a verify reached the store, the wallet's next verify fails until a new challenge is issued. */
  lemma ChallengeUsedOnce(messages: map<string, Challenge>, siwe: Siwe, s1: Option<string>, s2: Option<string>,
                          wallet: Option<string>, t1: int, t2: int, issueToken: string -> string)
    requires Present(s1) && ValidWallet(siwe, wallet)
    ensures var after := VerifyChallenge(messages, siwe, s1, wallet, t1, issueToken).0;
      && wallet.value !in after
      && VerifyChallenge(after, siwe, s2, wallet, t2, issueToken) == (after, VerifyErr(400))
  {
    var after := VerifyChallenge(messages, siwe, s1, wallet, t1, issueToken).0;
    assert after - {wallet.value} == after;
  }

  /** A challenge issued at `t` and answered with a signature the verifier accepts yields a token exactly up to `t + 300000`. */
  lemma ChallengeExpiry(messages: map<string, Challenge>, siwe: Siwe, wallet: string, nonce: string, t: int,
                        signature: string, now: int, issueToken: string -> string)
    requires siwe.isAddress(wallet) && wallet != "" && signature != ""
    requires siwe.verify(siwe.createMessage(wallet, nonce), signature, wallet)
    ensures var issued := IssueChallenge(messages, siwe, Some(wallet), nonce, t).0;
      VerifyChallenge(issued, siwe, Some(signature), Some(wallet), now, issueToken).1.Verified?
      <==> now <= t + CHALLENGE_TTL_MS
  {
  }

  /** A verify touches only the verifying wallet's challenge. */
  lemma VerifyLeavesOthers(messages: map<string, Challenge>, siwe: Siwe, signature: Option<string>,
                           wallet: Option<string>, now: int, issueToken: string -> string, other: string)
    requires other in messages && (wallet.None? || wallet.value != other)
    ensures var after := VerifyChallenge(messages, siwe, signature, wallet, now, issueToken).0;
      other in after && after[other] == messages[other]
  {
  }
}
