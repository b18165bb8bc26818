/**
 * The in-memory OTP ticket store of server.js: `otpStore`, a map from the
 * lower-cased email to `{otp, timestamp}`, filled by the register-OTP
 * handler, consumed by the verify handler and swept by a periodic timer.
 * The clock (`Date.now`) is the parameter `now` in milliseconds, and the
 * random draw of `generateOTP` is an integer `draw` in [0, 900000).
 */
module Otp {
  import opened Text

  /** How long a ticket stays valid: five minutes, in milliseconds. */
  const TtlMs: int := 5 * 60 * 1000

  /** The value stored for one email: the code sent and when it was issued. */
  datatype Ticket = Ticket(otp: string, timestamp: int)

  /** What the verify handler answers. */
  datatype Outcome = MissingData | NotFound | Expired | Verified | Invalid

  /** What the register-OTP handler answers; `OtpSent` carries the code mailed out. */
  datatype SendOutcome = EmailRequired | OtpSent(code: string) | EmailSendFailed

  /**
   * `generateOTP`: `draw` stands for `Math.floor(Math.random() * 900000)`,
   * and the code is the decimal string of `100000 + draw`.
   */
  function GenerateOtp(draw: int): (code: string)
    requires 0 <= draw < 900000
    ensures |code| == 6 && AllDigits(code)
    ensures DecimalValue(code) == 100000 + draw
    ensures 100000 <= DecimalValue(code) <= 999999
  {
    DecimalLength(100000 + draw, 5);
    DecimalRoundTrip(100000 + draw);
    DecimalString(100000 + draw)
  }

  /** Different draws give different codes. */
  lemma GenerateOtpInjective(d1: int, d2: int)
    requires 0 <= d1 < 900000 && 0 <= d2 < 900000 && d1 != d2
    ensures GenerateOtp(d1) != GenerateOtp(d2)
  {
  }

  /** A ticket is stale once strictly more than the lifetime has passed. */
  predicate IsExpired(t: Ticket, now: int)
    ensures !IsExpired(t, now) <==> now <= t.timestamp + 300000
  {
    now - t.timestamp > TtlMs
  }

  /** The store after a code is issued for `email` at `now`. */
  function AfterIssue(store: map<string, Ticket>, email: string, code: string, now: int): (r: map<string, Ticket>)
    ensures r.Keys == store.Keys + {Lower(email)}
    ensures r[Lower(email)] == Ticket(code, now)
    ensures forall k :: k in store && k != Lower(email) ==> r[k] == store[k]
  {
    store[Lower(email) := Ticket(code, now)]
  }

  /** The verify handler's answer for `email` and `otp` at `now`. */
  function VerifyOutcome(store: map<string, Ticket>, email: string, otp: string, now: int): (r: Outcome)
    ensures r == MissingData <==> email == "" || otp == ""
    ensures r == NotFound <==> email != "" && otp != "" && Lower(email) !in store
    ensures r == Expired <==> email != "" && otp != "" && Lower(email) in store && IsExpired(store[Lower(email)], now)
    ensures r == Verified <==> (&& email != "" && otp != "" && Lower(email) in store
                                && !IsExpired(store[Lower(email)], now) && store[Lower(email)].otp == otp)
  {
    if email == "" || otp == "" then MissingData
    else if Lower(email) !in store then NotFound
    else if IsExpired(store[Lower(email)], now) then Expired
    else if store[Lower(email)].otp == otp then Verified
    else Invalid
  }

  /** The store after the verify handler: an expired or matched ticket is deleted. */
  function AfterVerify(store: map<string, Ticket>, email: string, otp: string, now: int): (r: map<string, Ticket>)
    ensures r.Keys <= store.Keys
    ensures forall k :: k in r ==> r[k] == store[k]
    ensures (Lower(email) in store && Lower(email) !in r) <==>
            (VerifyOutcome(store, email, otp, now) == Expired || VerifyOutcome(store, email, otp, now) == Verified)
  {
    match VerifyOutcome(store, email, otp, now)
    case Expired => store - {Lower(email)}
    case Verified => store - {Lower(email)}
    case _ => store
  }

  /** The store after the periodic sweep at `now`: the tickets that are not stale. */
  function Unexpired(store: map<string, Ticket>, now: int): (r: map<string, Ticket>)
    ensures forall k :: k in r ==> k in store && r[k] == store[k] && !IsExpired(r[k], now)
  {
    map k | k in store && !IsExpired(store[k], now) :: store[k]
  }

  /**
   * A freshly issued code verifies, under any spelling of the email that
   * lower-cases to the same key, at any time up to and including the
   * moment the lifetime runs out.
   */
  lemma FreshCodeVerifies(store: map<string, Ticket>, email: string, spelling: string, draw: int, now: int, later: int)
    requires email != "" && spelling != "" && Lower(spelling) == Lower(email)
    requires 0 <= draw < 900000
    requires later - now <= TtlMs
    ensures VerifyOutcome(AfterIssue(store, email, GenerateOtp(draw), now), spelling, GenerateOtp(draw), later) == Verified
  {
  }

  /** A second issue for the same key makes the first code worthless. */
  lemma ReissueInvalidatesEarlierCode(store: map<string, Ticket>, email: string, d1: int, d2: int, t1: int, t2: int, now: int)
    requires 0 <= d1 < 900000 && 0 <= d2 < 900000 && d1 != d2
    ensures VerifyOutcome(AfterIssue(AfterIssue(store, email, GenerateOtp(d1), t1), email, GenerateOtp(d2), t2),
                          email, GenerateOtp(d1), now) != Verified
  {
  }

  /** With no ticket for the key the answer is "not found" and nothing changes. */
  lemma MissingTicketIsNotFound(store: map<string, Ticket>, email: string, otp: string, now: int)
    requires email != "" && otp != "" && Lower(email) !in store
    ensures VerifyOutcome(store, email, otp, now) == NotFound
    ensures AfterVerify(store, email, otp, now) == store
  {
  }

  /**
   * A wrong guess against a live ticket is "invalid", keeps the store as it
   * was, and the right code still verifies afterwards while the ticket lives.
   */
  lemma WrongGuessKeepsTicket(store: map<string, Ticket>, email: string, guess: string, now: int, later: int)
    requires email != "" && guess != ""
    requires Lower(email) in store && !IsExpired(store[Lower(email)], now)
    requires guess != store[Lower(email)].otp
    requires !IsExpired(store[Lower(email)], later)
    ensures VerifyOutcome(store, email, guess, now) == Invalid
    ensures AfterVerify(store, email, guess, now) == store
    ensures store[Lower(email)].otp != "" ==>
      VerifyOutcome(AfterVerify(store, email, guess, now), email, store[Lower(email)].otp, later) == Verified
  {
  }

  /**
   * A stale ticket answers "expired" even for the right code, and is gone:
   * any later attempt answers "not found".
   */
  lemma ExpiredTicketIsPurged(store: map<string, Ticket>, email: string, otp: string, retry: string, now: int, later: int)
    requires email != "" && otp != "" && retry != ""
    requires Lower(email) in store && IsExpired(store[Lower(email)], now)
    ensures VerifyOutcome(store, email, otp, now) == Expired
    ensures AfterVerify(store, email, otp, now) == store - {Lower(email)}
    ensures VerifyOutcome(AfterVerify(store, email, otp, now), email, retry, later) == NotFound
  {
  }

  /** The expiry test is strict: at exactly five minutes the right code still verifies. */
  lemma ExpiryIsStrict(store: map<string, Ticket>, email: string, now: int)
    requires email != "" && Lower(email) in store && store[Lower(email)].otp != ""
    requires now == store[Lower(email)].timestamp + TtlMs
    ensures VerifyOutcome(store, email, store[Lower(email)].otp, now) == Verified
    ensures VerifyOutcome(store, email, store[Lower(email)].otp, now + 1) == Expired
  {
  }

  /** A verified code is consumed: the same request again answers "not found". */
  lemma VerifiedCodeIsSingleUse(store: map<string, Ticket>, email: string, otp: string, now: int, later: int)
    requires VerifyOutcome(store, email, otp, now) == Verified
    ensures AfterVerify(store, email, otp, now) == store - {Lower(email)}
    ensures VerifyOutcome(AfterVerify(store, email, otp, now), email, otp, later) == NotFound
  {
  }

  /** Verify touches only the key of the email it was given. */
  lemma VerifyKeepsOtherKeys(store: map<string, Ticket>, email: string, otp: string, now: int, k: string)
    requires k != Lower(email)
    ensures k in AfterVerify(store, email, otp, now) <==> k in store
    ensures k in store ==> AfterVerify(store, email, otp, now)[k] == store[k]
  {
  }

  /** The sweep keeps exactly the live tickets, with their values. */
  lemma SweepKeepsExactlyLive(store: map<string, Ticket>, now: int, k: string)
    ensures k in Unexpired(store, now) <==> k in store && !IsExpired(store[k], now)
    ensures k in Unexpired(store, now) ==> Unexpired(store, now)[k] == store[k]
  {
  }

  /**
   * Sweeping changes no answer of verify at the same instant, except that a
   * stale ticket is reported "not found" instead of "expired"; and sweeping
   * commutes with verify.
   */
  lemma SweepAgreesWithVerify(store: map<string, Ticket>, email: string, otp: string, now: int)
    ensures VerifyOutcome(Unexpired(store, now), email, otp, now) ==
      (if VerifyOutcome(store, email, otp, now) == Expired then NotFound else VerifyOutcome(store, email, otp, now))
    ensures AfterVerify(Unexpired(store, now), email, otp, now) == Unexpired(AfterVerify(store, email, otp, now), now)
  {
  }

  /** A later sweep subsumes an earlier one, so sweeping twice is sweeping once. */
  lemma SweepsCompose(store: map<string, Ticket>, t1: int, t2: int)
    requires t1 <= t2
    ensures Unexpired(Unexpired(store, t1), t2) == Unexpired(store, t2)
    ensures Unexpired(Unexpired(store, t2), t2) == Unexpired(store, t2)
  {
  }

  /** The sweep only removes tickets. */
  lemma SweepShrinks(store: map<string, Ticket>, now: int)
    ensures Unexpired(store, now).Keys <= store.Keys
    ensures |Unexpired(store, now)| <= |store|
  {
    var swept := Unexpired(store, now);
    assert swept.Keys <= store.Keys;
    SubsetCard(swept.Keys, store.Keys);
  }

  lemma {:induction false} SubsetCard<T>(a: set<T>, b: set<T>)
    requires a <= b
    ensures |a| <= |b|
    decreases |b|
  {
    if b != {} {
      var x :| x in b;
      SubsetCard(a - {x}, b - {x});
    }
  }

  /** `otpStore` together with the three handlers that use it. */
  class OtpStore {
    var tickets: map<string, Ticket>

    /** `new Map()`: the store starts empty. */
    constructor ()
      ensures tickets == map[]
    {
      tickets := map[];
    }

    /**
     * The register-OTP handler: an empty email is refused and changes
     * nothing; otherwise the new ticket replaces any earlier one for the
     * lower-cased email BEFORE the mail is sent, so a failed send
     * (`mailSent` false) still leaves a live ticket behind.
     */
    method SendRegisterOtp(email: string, draw: int, now: int, mailSent: bool) returns (r: SendOutcome)
      requires 0 <= draw < 900000
      modifies this
      ensures email == "" ==> r == EmailRequired && tickets == old(tickets)
      ensures email != "" ==> tickets == AfterIssue(old(tickets), email, GenerateOtp(draw), now)
      ensures email != "" ==> r == if mailSent then OtpSent(GenerateOtp(draw)) else EmailSendFailed
    {
      if email == "" {
        return EmailRequired;
      }
      var otp := GenerateOtp(draw);
      tickets := tickets[Lower(email) := Ticket(otp, now)];
      if mailSent {
        r := OtpSent(otp);
      } else {
        r := EmailSendFailed;
      }
    }

    /** The verify handler: answers and updates the store as `VerifyOutcome` and `AfterVerify` say. */
    method VerifyOtp(email: string, otp: string, now: int) returns (r: Outcome)
      modifies this
      ensures r == VerifyOutcome(old(tickets), email, otp, now)
      ensures tickets == AfterVerify(old(tickets), email, otp, now)
    {
      if email == "" || otp == "" {
        return MissingData;
      }
      var key := Lower(email);
      if key !in tickets {
        return NotFound;
      }
      var stored := tickets[key];
      if now - stored.timestamp > TtlMs {
        tickets := tickets - {key};
        return Expired;
      }
      if stored.otp == otp {
        tickets := tickets - {key};
        return Verified;
      }
      r := Invalid;
    }

    /** The body of the periodic timer: delete every stale ticket, visiting each entry once. */
    method Sweep(now: int)
      modifies this
      ensures tickets == Unexpired(old(tickets), now)
    {
      var pending := tickets.Keys;
      while pending != {}
        invariant pending <= old(tickets).Keys && tickets.Keys <= old(tickets).Keys
        invariant forall k :: k in pending ==> k in tickets && tickets[k] == old(tickets)[k]
        invariant forall k :: k in old(tickets) && k !in pending ==>
          (k in tickets <==> !IsExpired(old(tickets)[k], now))
        invariant forall k :: k in tickets ==> tickets[k] == old(tickets)[k]
        decreases pending
      {
        var key :| key in pending;
        if now - tickets[key].timestamp > TtlMs {
          tickets := tickets - {key};
        }
        pending := pending - {key};
      }
      assert tickets.Keys == Unexpired(old(tickets), now).Keys;
    }
  }

}
