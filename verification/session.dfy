/**
 The client's authorization state: when a call re-authorizes, what the
 re-authorization replaces, and which timeout a request is opened with.
 */
module Session {
  import opened Common

  /**
   The mutable part of a client. `lastAuthTime` is whole seconds; `tokenLifetime`
   is the constructor's `auth_token_lifetime_in_seconds`, as the number it is
   evidently meant to be (see `NeedsReauthAsWritten` for the tuple it becomes).
   */
  datatype Session = Session(
    accountId: string,
    appKey: string,
    authToken: Option<string>,
    apiUrl: Option<string>,
    downloadUrl: Option<string>,
    lastAuthTime: Option<int>,
    tokenLifetime: int,
    validDuration: int,
    defaultTimeout: Option<real>)
  {
    /** Token, both URLs and the stamp are only ever assigned together. */
    predicate Consistent()
    {
      && (authToken.Some? <==> apiUrl.Some?)
      && (apiUrl.Some? <==> downloadUrl.Some?)
      && (downloadUrl.Some? <==> lastAuthTime.Some?)
    }
  }

  /** The fields the authorize-account reply supplies. */
  datatype AuthReply = AuthReply(authorizationToken: string, apiUrl: string, downloadUrl: string)

  /**
   A freshly constructed client: nothing is authorized yet. The constructor's
   defaults are a two-hour token lifetime, a one-day download validity and no
   default timeout; here every value is given.
   */
  function NewSession(accountId: string, appKey: string, tokenLifetime: int,
                      validDuration: int, defaultTimeout: Option<real>): (s: Session)
    ensures s.Consistent()
    ensures s.accountId == accountId && s.appKey == appKey
    ensures s.tokenLifetime == tokenLifetime && s.validDuration == validDuration
    ensures s.defaultTimeout == defaultTimeout
    ensures s.authToken.None? && s.apiUrl.None? && s.downloadUrl.None? && s.lastAuthTime.None?
    ensures forall now :: NeedsReauth(s, now)
  {
    Session(accountId, appKey, None, None, None, None, tokenLifetime, validDuration, defaultTimeout)
  }

  /**
   The staleness test guarding every API call: re-authorize when a previous
   authorization is strictly older than the lifetime, or when the token or the
   API URL is missing or empty.
   */
  predicate NeedsReauth(s: Session, now: int)
  {
    || (s.lastAuthTime.Some? && now - s.lastAuthTime.value > s.tokenLifetime)
    || !Truthy(s.authToken)
    || !Truthy(s.apiUrl)
  }

  /**
   Runs the staleness test at time `now` and, when it asks for it, performs the
   authorize-account call whose answer is `reply` (`None` for an HTTP error).
   */
  function EnsureAuthorized(s: Session, now: int, reply: Option<AuthReply>): (r: Result<Session>)
    ensures !NeedsReauth(s, now) ==> r == Ok(s)
    ensures NeedsReauth(s, now) && reply.None? ==> r == Err(AuthorizationRejected)
    ensures NeedsReauth(s, now) && reply.Some? ==>
      && r.Ok?
      && r.value.authToken == Some(reply.value.authorizationToken)
      && r.value.apiUrl == Some(reply.value.apiUrl)
      && r.value.downloadUrl == Some(reply.value.downloadUrl)
      && r.value.lastAuthTime == Some(now)
    ensures r.Ok? ==>
      && r.value.accountId == s.accountId && r.value.appKey == s.appKey
      && r.value.tokenLifetime == s.tokenLifetime && r.value.validDuration == s.validDuration
      && r.value.defaultTimeout == s.defaultTimeout
    ensures s.Consistent() && r.Ok? ==> r.value.Consistent() && r.value.downloadUrl.Some?
  {
    if NeedsReauth(s, now) then
      match reply
      case None => Err(AuthorizationRejected)
      case Some(a) =>
        Ok(s.(authToken := Some(a.authorizationToken), apiUrl := Some(a.apiUrl),
              downloadUrl := Some(a.downloadUrl), lastAuthTime := Some(now)))
    else
      Ok(s)
  }

  /**
   After a re-authorization with a non-empty token and API URL, no call
   re-authorizes again until the age strictly exceeds the lifetime: an age
   exactly equal to the lifetime is still fresh, one second more is stale.
   */
  lemma FreshForExactlyTheLifetime(s: Session, now: int, a: AuthReply, later: int)
    requires NeedsReauth(s, now)
    requires a.authorizationToken != "" && a.apiUrl != ""
    requires now <= later
    ensures EnsureAuthorized(s, now, Some(a)).Ok?
    ensures !NeedsReauth(EnsureAuthorized(s, now, Some(a)).value, later) <==> later <= now + s.tokenLifetime
  {
  }

  /**
   The staleness test as the constructor leaves it: a trailing comma stores the
   lifetime as a one-element tuple, and comparing a number with a tuple raises
   TypeError. The comparison is only reached once an authorization has been
   stamped, so from then on the test itself fails; before that it agrees with
   `NeedsReauth`.
   */
  function NeedsReauthAsWritten(s: Session, now: int): (r: Result<bool>)
    ensures r.Err? <==> s.lastAuthTime.Some?
    ensures r.Err? ==> r.error == LifetimeNotComparable
    ensures r.Ok? ==> (r.value <==> NeedsReauth(s, now))
  {
    if s.lastAuthTime.Some? then Err(LifetimeNotComparable)
    else Ok(!Truthy(s.authToken) || !Truthy(s.apiUrl))
  }

  /**
   With the tuple-valued lifetime, the first authorization of a new client
   succeeds, and every staleness test after it raises instead of answering.
   */
  lemma AsWrittenTestFailsAfterFirstAuthorization(accountId: string, appKey: string, tokenLifetime: int,
                                                  validDuration: int, defaultTimeout: Option<real>,
                                                  now: int, a: AuthReply, later: int)
    ensures NeedsReauthAsWritten(NewSession(accountId, appKey, tokenLifetime, validDuration, defaultTimeout), now).Ok?
    ensures EnsureAuthorized(NewSession(accountId, appKey, tokenLifetime, validDuration, defaultTimeout), now, Some(a)).Ok?
    ensures NeedsReauthAsWritten(
              EnsureAuthorized(NewSession(accountId, appKey, tokenLifetime, validDuration, defaultTimeout), now, Some(a)).value,
              later) == Err(LifetimeNotComparable)
  {
  }

  /** Once stale because of age, a session stays stale at every later time. */
  lemma StalenessPersists(s: Session, now: int, later: int)
    requires s.lastAuthTime.Some? && now - s.lastAuthTime.value > s.tokenLifetime
    requires now <= later
    ensures NeedsReauth(s, later)
  {
  }

  /** The timeout handed to the URL opener: the library default, or an explicit value (possibly `None`). */
  datatype UrlOpenTimeout = LibraryDefault | Explicit(seconds: Option<real>)

  /**
   Timeout choice: the library default only when neither a per-call nor a
   client default is set; otherwise `timeout or default`, so a per-call timeout
   of zero falls back to the client default (even when that is `None`).
   */
  function ChooseTimeout(timeout: Option<real>, default: Option<real>): (r: UrlOpenTimeout)
    ensures r.LibraryDefault? <==> timeout.None? && default.None?
    ensures timeout.Some? && timeout.value != 0.0 ==> r == Explicit(timeout)
    ensures timeout == Some(0.0) ==> r == Explicit(default)
    ensures timeout.None? && default.Some? ==> r == Explicit(default)
  {
    if timeout.Some? || default.Some? then
      Explicit(if timeout.Some? && timeout.value != 0.0 then timeout else default)
    else
      LibraryDefault
  }
}
