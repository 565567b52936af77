/** The OAuth credential of the service (`authorize` in twitchrss.py): a
    process-wide token and the epoch second it expires at, renewed by a
    client-credentials exchange that is tried at most three times. */
module Auth {
  import opened Common

  /** The two globals `TWITCH_OAUTH_TOKEN` and `TWITCH_OAUTH_EXPIRE_EPOCH`. */
  datatype Credential = Credential(token: string, expireEpoch: int)

  /** What one POST to the token endpoint amounts to inside the retry loop. */
  datatype Exchange =
    /** `urlopen`, the read, JSON decoding or the `access_token` lookup raised:
        nothing was assigned. */
    | Refused
    /** The token was assigned, then `int(r['expires_in'])` raised: the new
        token stays with the old expiry and the loop goes on. */
    | TokenWithoutLifetime(accessToken: string)
    /** Both fields were read: the token and its lifetime in seconds. */
    | Granted(accessToken: string, expiresIn: int)

  /** The upstream's answer to attempt `i`; an attempt the sequence does not
      script is a refused connection. */
  function ExchangeAt(answers: seq<Exchange>, i: nat): Exchange
  {
    if i < |answers| then answers[i] else Refused
  }

  datatype AuthOutcome =
    | StillValid   // returned at the first check, no request made
    | Renewed      // returned after a successful exchange
    | Unavailable  // abort(503)

  /** The credential after the call, how the call ended, and how many
      exchanges it sent. */
  datatype AuthRun = AuthRun(cred: Credential, outcome: AuthOutcome, attempts: nat)

  /** The retry loop from attempt `retries` on. */
  function Retry(cred: Credential, now: int, answers: seq<Exchange>, retries: nat): (run: AuthRun)
    requires retries <= MAX_ATTEMPTS
    ensures retries <= run.attempts <= MAX_ATTEMPTS
    ensures run.outcome != StillValid
    ensures run.outcome == Unavailable ==>
              run.attempts == MAX_ATTEMPTS && run.cred.expireEpoch == cred.expireEpoch &&
              forall k :: retries <= k < MAX_ATTEMPTS ==> !ExchangeAt(answers, k).Granted?
    ensures run.outcome == Renewed ==>
              retries < run.attempts &&
              ExchangeAt(answers, run.attempts - 1).Granted? &&
              run.cred.token == ExchangeAt(answers, run.attempts - 1).accessToken &&
              run.cred.expireEpoch == ExchangeAt(answers, run.attempts - 1).expiresIn + now &&
              forall k :: retries <= k < run.attempts - 1 ==> !ExchangeAt(answers, k).Granted?
    decreases MAX_ATTEMPTS - retries
  {
    if retries == MAX_ATTEMPTS then AuthRun(cred, Unavailable, retries)
    else match ExchangeAt(answers, retries)
      case Refused => Retry(cred, now, answers, retries + 1)
      case TokenWithoutLifetime(t) => Retry(Credential(t, cred.expireEpoch), now, answers, retries + 1)
      case Granted(t, lifetime) => AuthRun(Credential(t, lifetime + now), Renewed, retries + 1)
  }

  /** `authorize()` at clock reading `now`, starting from `cred`. */
  function Authorized(cred: Credential, now: int, answers: seq<Exchange>): (run: AuthRun)
    ensures run.attempts <= MAX_ATTEMPTS
    ensures cred.expireEpoch >= now <==> run.outcome == StillValid
    ensures run.outcome == StillValid ==> run.cred == cred && run.attempts == 0
  {
    if cred.expireEpoch >= now then AuthRun(cred, StillValid, 0)
    else Retry(cred, now, answers, 0)
  }

  /** An expired credential is renewed exactly when one of the first three
      exchanges is granted; the first granted one decides the new credential. */
  lemma RenewedIffGranted(cred: Credential, now: int, answers: seq<Exchange>)
    requires cred.expireEpoch < now
    ensures var run := Authorized(cred, now, answers);
            (run.outcome == Renewed <==> exists k :: 0 <= k < MAX_ATTEMPTS && ExchangeAt(answers, k).Granted?) &&
            (run.outcome == Unavailable <==> forall k :: 0 <= k < MAX_ATTEMPTS ==> !ExchangeAt(answers, k).Granted?)
  {
  }

  /** When the three exchanges fail, the expiry is the old one and the token is
      the last one an exchange assigned before its lifetime could be read, or
      the old token if none did. */
  lemma ExhaustedKeepsPartialToken(cred: Credential, now: int, answers: seq<Exchange>, retries: nat)
    requires retries <= MAX_ATTEMPTS
    requires Retry(cred, now, answers, retries).outcome == Unavailable
    ensures var run := Retry(cred, now, answers, retries);
            run.cred.expireEpoch == cred.expireEpoch &&
            run.cred.token == LastAssignedToken(cred.token, answers, retries)
    decreases MAX_ATTEMPTS - retries
  {
    if retries < MAX_ATTEMPTS {
      match ExchangeAt(answers, retries)
      case Refused =>
        ExhaustedKeepsPartialToken(cred, now, answers, retries + 1);
      case TokenWithoutLifetime(t) =>
        ExhaustedKeepsPartialToken(Credential(t, cred.expireEpoch), now, answers, retries + 1);
    }
  }

  /** The token the globals hold after attempts `retries` to 2 when none is
      granted. */
  function LastAssignedToken(token: string, answers: seq<Exchange>, retries: nat): string
    requires retries <= MAX_ATTEMPTS
    decreases MAX_ATTEMPTS - retries
  {
    if retries == MAX_ATTEMPTS then token
    else match ExchangeAt(answers, retries)
      case TokenWithoutLifetime(t) => LastAssignedToken(t, answers, retries + 1)
      case _ => LastAssignedToken(token, answers, retries + 1)
  }

  /** The credential is current after `authorize` returns normally, provided
      the server never reports a negative lifetime. */
  lemma ReturnedCredentialIsCurrent(cred: Credential, now: int, answers: seq<Exchange>)
    requires forall k :: 0 <= k < |answers| && answers[k].Granted? ==> answers[k].expiresIn >= 0
    ensures var run := Authorized(cred, now, answers);
            run.outcome != Unavailable ==> run.cred.expireEpoch >= now
  {
  }

  /** The holder of the two globals. */
  class OAuthToken {
    var token: string
    var expireEpoch: int

    /** The module's initial values: no token, expired since epoch 0. */
    constructor ()
      ensures token == "" && expireEpoch == 0
    {
      token := "";
      expireEpoch := 0;
    }

    function Held(): Credential
      reads this
    {
      Credential(token, expireEpoch)
    }

    /** `authorize()`: keeps a credential whose expiry is at or after `now`,
        otherwise tries the exchanges in `answers` one after the other. */
    method Authorize(now: int, answers: seq<Exchange>) returns (outcome: AuthOutcome, attempts: nat)
      modifies this
      ensures var run := Authorized(old(Held()), now, answers);
              Held() == run.cred && outcome == run.outcome && attempts == run.attempts
    {
      if expireEpoch >= now {
        return StillValid, 0;
      }
      var retries := 0;
      while retries < MAX_ATTEMPTS
        invariant retries <= MAX_ATTEMPTS
        invariant Retry(Held(), now, answers, retries) == Authorized(old(Held()), now, answers)
        decreases MAX_ATTEMPTS - retries
      {
        match ExchangeAt(answers, retries) {
          case Refused =>
          case TokenWithoutLifetime(t) =>
            token := t;
          case Granted(t, lifetime) =>
            token := t;
            expireEpoch := lifetime + now;
            return Renewed, retries + 1;
        }
        retries := retries + 1;
      }
      return Unavailable, retries;
    }
  }
}
