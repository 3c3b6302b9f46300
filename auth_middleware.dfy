/**
 * api/middleware/auth.ts: `authSigned`, the signed-header check in front of the request
 * routes. It rejects in a fixed order (missing headers, malformed signature or address,
 * a signature already used, a bad timestamp, a stale timestamp), then records the
 * signature as consumed and only then verifies it. The module-level
 * `consumedSignatures` record is the `consumed` set of a `SignatureLedger`.
 * viem's `isHash`, `isAddress` and `verifyMessage` are foreign and come in as a `Viem`;
 * the clock is the `now` parameter.
 */
module AuthMiddleware {
  import opened Wrappers
  import DriverCodecs

  const TTL_MS: int := 6 * 1000
  const MESSAGE_HEADER: string := "Filosign\n"

  /** The `x-auth-signature`, `x-auth-address` and `x-auth-timestamp` headers. */
  datatype Headers = Headers(signature: Option<string>, address: Option<string>, timestamp: Option<string>)

  /** `verifyMessage(message, signature, address)` is the signature check. */
  datatype Viem = Viem(isHash: string -> bool, isAddress: string -> bool, verifyMessage: (string, string, string) -> bool)

  datatype AuthResult = Rejected(code: int) | Authorized(userWallet: string)

  /** A header that is set and not empty (an empty string is falsy). */
  predicate Present(h: Option<string>)
  {
    h.Some? && h.value != ""
  }

  /** `Number(tsHeader)` on decimal text; `None` is NaN. */
  function ParseTimestamp(s: string): Option<int>
  {
    DriverCodecs.BigIntFromDriver(s)
  }

  /** `Filosign\n${claimedAddr}\n${timestamp}`, the timestamp printed back as a number. */
  function SignedMessage(address: string, timestamp: int): string
  {
    MESSAGE_HEADER + address + "\n" + DriverCodecs.BigIntToDriver(timestamp)
  }

  /** Every check before the freshness one passes. */
  predicate WellFormed(consumed: set<string>, h: Headers, viem: Viem)
  {
    && Present(h.signature) && Present(h.address) && Present(h.timestamp)
    && viem.isHash(h.signature.value) && viem.isAddress(h.address.value)
    && h.signature.value !in consumed
    && ParseTimestamp(h.timestamp.value).Some? && ParseTimestamp(h.timestamp.value).value > 0
  }

  function Timestamp(h: Headers): int
    requires h.timestamp.Some? && ParseTimestamp(h.timestamp.value).Some?
  {
    ParseTimestamp(h.timestamp.value).value
  }

  /** Every check before the signature is consumed passes. */
  predicate Admissible(consumed: set<string>, h: Headers, viem: Viem, now: int)
  {
    WellFormed(consumed, h, viem) && now <= Timestamp(h) + TTL_MS
  }

  /** The middleware on one request: the new consumed set and the outcome. */
  function Authenticate(consumed: set<string>, h: Headers, viem: Viem, now: int): (r: (set<string>, AuthResult))
    ensures !WellFormed(consumed, h, viem) ==> r == (consumed, Rejected(401))
    ensures WellFormed(consumed, h, viem) && !Admissible(consumed, h, viem, now) ==> r == (consumed, Rejected(408))
    ensures Admissible(consumed, h, viem, now) ==>
      && r.0 == consumed + {h.signature.value}
      && var valid := viem.verifyMessage(SignedMessage(h.address.value, Timestamp(h)), h.signature.value, h.address.value);
         (valid ==> r.1 == Authorized(h.address.value)) && (!valid ==> r.1 == Rejected(401))
  {
    if !Present(h.signature) || !Present(h.address) || !Present(h.timestamp) then (consumed, Rejected(401))
    else
      var sig, addr := h.signature.value, h.address.value;
      if !viem.isHash(sig) || !viem.isAddress(addr) then (consumed, Rejected(401))
      else if sig in consumed then (consumed, Rejected(401))
      else match ParseTimestamp(h.timestamp.value)
        case None => (consumed, Rejected(401))
        case Some(timestamp) =>
          if timestamp <= 0 then (consumed, Rejected(401))
          else if timestamp + TTL_MS < now then (consumed, Rejected(408))
          else
            var message := SignedMessage(addr, timestamp);
            var marked := consumed + {sig};
            if !viem.verifyMessage(message, sig, addr) then (marked, Rejected(401))
            else (marked, Authorized(addr))
  }

  class SignatureLedger {
    var consumed: set<string>

    constructor ()
      ensures consumed == {}
    {
      consumed := {};
    }
  }

  /** `authSigned`; on `Authorized`, the handler runs with `userWallet` set. */
  method AuthSigned(ledger: SignatureLedger, h: Headers, viem: Viem, now: int) returns (result: AuthResult)
    modifies ledger
    ensures (ledger.consumed, result) == Authenticate(old(ledger.consumed), h, viem, now)
  {
    if !Present(h.signature) || !Present(h.address) || !Present(h.timestamp) {
      return Rejected(401);
    }
    var sig, addr := h.signature.value, h.address.value;
    if !viem.isHash(sig) || !viem.isAddress(addr) {
      return Rejected(401);
    }
    if sig in ledger.consumed {
      return Rejected(401);
    }
    var parsed := ParseTimestamp(h.timestamp.value);
    if parsed.None? || parsed.value <= 0 {
      return Rejected(401);
    }
    var timestamp := parsed.value;
    if timestamp + TTL_MS < now {
      return Rejected(408);
    }
    var message := SignedMessage(addr, timestamp);
    ledger.consumed := ledger.consumed + {sig};
    if !viem.verifyMessage(message, sig, addr) {
      return Rejected(401);
    }
    result := Authorized(addr);
  }

  // ---------------------------------------------------------------------------
  // Properties

  /** An authorized request carried a fresh, unused signature over its own address and timestamp. */
  lemma AuthorizedMeansSigned(consumed: set<string>, h: Headers, viem: Viem, now: int)
    requires Authenticate(consumed, h, viem, now).1.Authorized?
    ensures Admissible(consumed, h, viem, now)
    ensures h.signature.value !in consumed && Timestamp(h) > 0 && now <= Timestamp(h) + TTL_MS
    ensures Authenticate(consumed, h, viem, now).1.userWallet == h.address.value
    ensures viem.verifyMessage(SignedMessage(h.address.value, Timestamp(h)), h.signature.value, h.address.value)
  {
  }

  /**
   * A signature is single-use: once a request consumed it, any later request with it is
   * refused with 401 and changes nothing, whatever its other headers and whenever it comes.
   */
  lemma ReplayRefused(consumed: set<string>, h: Headers, viem: Viem, now: int, h2: Headers, viem2: Viem, later: int)
    requires Authenticate(consumed, h, viem, now).0 != consumed
    requires h2.signature == h.signature
    ensures var c := Authenticate(consumed, h, viem, now).0;
      Authenticate(c, h2, viem2, later) == (c, Rejected(401))
  {
    var c := Authenticate(consumed, h, viem, now).0;
    assert Admissible(consumed, h, viem, now);
    assert h.signature.value in c;
    assert !WellFormed(c, h2, viem2);
  }

  /** The only change to the ledger is consuming the request's own signature. */
  lemma LedgerOnlyGrows(consumed: set<string>, h: Headers, viem: Viem, now: int)
    ensures var c := Authenticate(consumed, h, viem, now).0;
      c == consumed || (Present(h.signature) && c == consumed + {h.signature.value})
  {
  }

  /** The text before the first line break. */
  function FirstLine(s: string): string
    decreases |s|
  {
    if s == [] || s[0] == '\n' then [] else [s[0]] + FirstLine(s[1..])
  }

  lemma {:induction false} FirstLineOf(a: string, rest: string)
    requires '\n' !in a
    ensures FirstLine(a + "\n" + rest) == a
    decreases |a|
  {
    var s := a + "\n" + rest;
    if a != [] {
      assert s[0] == a[0] && a[0] in a;
      assert s[1..] == a[1..] + "\n" + rest;
      assert '\n' !in a[1..] by {
        forall i | 0 <= i < |a[1..]| ensures a[1..][i] != '\n' { assert a[1..][i] == a[i + 1]; }
      }
      FirstLineOf(a[1..], rest);
      assert a == [a[0]] + a[1..];
    } else {
      assert s[0] == '\n';
    }
  }

  /** `SignedMessage` is injective on addresses without a line break: a signature is bound to one address and one timestamp. */
  lemma SignedMessageInjective(a: string, t: int, b: string, u: int)
    requires '\n' !in a && '\n' !in b
    requires SignedMessage(a, t) == SignedMessage(b, u)
    ensures a == b && t == u
  {
    var da, db := DriverCodecs.BigIntToDriver(t), DriverCodecs.BigIntToDriver(u);
    var ra, rb := a + "\n" + da, b + "\n" + db;
    assert SignedMessage(a, t) == MESSAGE_HEADER + ra;
    assert SignedMessage(b, u) == MESSAGE_HEADER + rb;
    assert ra == rb by {
      assert ra == SignedMessage(a, t)[|MESSAGE_HEADER|..];
      assert rb == SignedMessage(b, u)[|MESSAGE_HEADER|..];
    }
    FirstLineOf(a, da);
    FirstLineOf(b, db);
    assert da == ra[|a| + 1..] && db == rb[|b| + 1..];
    DriverCodecs.BigIntToDriverInjective(t, u);
  }

  // ---------------------------------------------------------------------------
  // The middleware as written: `verifyMessage` is not awaited

  /**
   * The middleware as the source writes it: `verifyMessage` returns a Promise that is
   * not awaited, and a Promise is truthy, so the `!valid` branch never fires and every
   * admissible request is authorized, whatever the signature.
   */
  function AuthenticateAsWritten(consumed: set<string>, h: Headers, viem: Viem, now: int): (r: (set<string>, AuthResult))
    ensures r.0 == Authenticate(consumed, h, viem, now).0
    ensures Admissible(consumed, h, viem, now) ==> r.1 == Authorized(h.address.value)
    ensures !Admissible(consumed, h, viem, now) ==> r.1 == Authenticate(consumed, h, viem, now).1
  {
    var (c, result) := Authenticate(consumed, h, viem, now);
    if Admissible(consumed, h, viem, now) then (c, Authorized(h.address.value)) else (c, result)
  }

  /** A signature no key produced is accepted as written and refused once the verification is awaited. */
  lemma AsWrittenAcceptsForgery()
    ensures var viem := Viem(s => true, s => true, (m, s, a) => false);
      var h := Headers(Some("0xsig"), Some("0xaddr"), Some("7"));
      && AuthenticateAsWritten({}, h, viem, 7).1 == Authorized("0xaddr")
      && Authenticate({}, h, viem, 7).1 == Rejected(401)
  {
    var viem := Viem(s => true, s => true, (m, s, a) => false);
    var h := Headers(Some("0xsig"), Some("0xaddr"), Some("7"));
    assert DriverCodecs.AllDigits("7");
    assert ParseTimestamp("7") == Some(7) by {
      assert "7"[..0] == [];
    }
    assert Admissible({}, h, viem, 7);
  }
}
