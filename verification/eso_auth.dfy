/**
 The ESO single-sign-on session: an access token with its expiry time, the
 password exchange that obtains it, and the bearer header built from it.
 Clocks are parameters (seconds since the epoch) and the exchange with the
 identity provider is an abstract reply.
 */
module EsoAuth {
  import opened Wrappers

  /** Tokens are treated as expired this many seconds before their `exp`. */
  const ExpiryMargin: int := 600

  /** A session: the credentials it was obtained with, the token, and the
      token's `exp` claim. */
  datatype AuthInfo = AuthInfo(username: string, password: string, token: string, expirationTime: int)

  /** `AuthInfo.expired`, read against the clock value `now`. */
  predicate Expired(info: AuthInfo, now: int) {
    now > info.expirationTime - ExpiryMargin
  }

  /** The boundary: at exactly ten minutes before `exp` the token is still
      good, one second later it is not, and once expired it stays expired. */
  lemma ExpiredBoundary(info: AuthInfo, now: int, later: int)
    ensures !Expired(info, info.expirationTime - ExpiryMargin)
    ensures Expired(info, info.expirationTime - ExpiryMargin + 1)
    ensures Expired(info, now) && now <= later ==> Expired(info, later)
  {
  }

  /** The identity provider's reply to the password grant: the HTTP status
      and, when the body holds an `id_token`, that token and its `exp`. */
  datatype SsoReply = SsoReply(status: int, idToken: Option<(string, int)>)

  /** What can go wrong beyond a refused login: a 200 reply without an
      `id_token` makes the JSON lookup fail. */
  datatype AuthError = MissingIdToken

  /** The outcome of an authentication attempt together with the session it
      leaves behind (an exception does not restore the old session). */
  datatype Attempt = Attempt(outcome: Result<bool, AuthError>, session: Option<AuthInfo>)

  /** `_authenticate`: the old session is dropped before the request, a 200
      reply installs a new session for the given credentials and returns
      true, anything else returns false with no session. */
  function Authenticate(previous: Option<AuthInfo>, username: string, password: string,
                        reply: SsoReply): (a: Attempt)
    ensures a.session.Some? <==> a.outcome == Success(true)
    ensures a.outcome == Success(false) <==> reply.status != 200
    ensures a.outcome.Failure? <==> reply.status == 200 && reply.idToken.None?
    ensures a.session.Some? ==> a.session.value.username == username
                                && a.session.value.password == password
                                && a.session.value.token == reply.idToken.value.0
                                && a.session.value.expirationTime == reply.idToken.value.1
  {
    if reply.status == 200 then
      match reply.idToken
      case None => Attempt(Failure(MissingIdToken), None)
      case Some((token, exp)) => Attempt(Success(true), Some(AuthInfo(username, password, token, exp)))
    else Attempt(Success(false), None)
  }

  /** The previous session has no influence on an authentication attempt. */
  lemma AuthenticateForgetsPrevious(p: Option<AuthInfo>, q: Option<AuthInfo>,
                                    username: string, password: string, reply: SsoReply)
    ensures Authenticate(p, username, password, reply) == Authenticate(q, username, password, reply)
  {
  }

  /** A header dictionary: empty, or the single `Authorization` entry. */
  type Headers = map<string, string>

  /** `_get_auth_header`, with its result, the session it leaves, and
      whether it re-authenticated. `before` is the clock at the first expiry
      test, `after` the clock at the second one, and `reply` what the
      identity provider answers if it is asked again. */
  datatype HeaderCall = HeaderCall(headers: Result<Headers, AuthError>, session: Option<AuthInfo>, reauthenticated: bool)

  function GetAuthHeader(session: Option<AuthInfo>, before: int, after: int, reply: SsoReply): (h: HeaderCall)
    // a fresh login happens exactly when a session exists and has expired
    ensures h.reauthenticated <==> session.Some? && Expired(session.value, before)
    ensures !h.reauthenticated ==> h.session == session
    // a new session always carries the stored credentials
    ensures h.reauthenticated && h.session.Some? ==>
              h.session.value.username == session.value.username
              && h.session.value.password == session.value.password
    // the bearer header is sent exactly when a session is still valid
    ensures h.headers.Success? ==>
              (h.headers.value != map[] <==> h.session.Some? && !Expired(h.session.value, after))
    ensures h.headers.Success? && h.headers.value != map[] ==>
              h.headers.value == map["Authorization" := "Bearer " + h.session.value.token]
    ensures h.headers.Failure? ==> h.reauthenticated && h.session.None?
  {
    var (refreshed, reauth) :=
      if session.Some? && Expired(session.value, before) then
        (Authenticate(session, session.value.username, session.value.password, reply), true)
      else (Attempt(Success(true), session), false);
    if refreshed.outcome.Failure? then HeaderCall(Failure(refreshed.outcome.error), refreshed.session, reauth)
    else
      var current := refreshed.session;
      if current.Some? && !Expired(current.value, after) then
        var bearer := map["Authorization" := "Bearer " + current.value.token];
        assert "Authorization" in bearer;
        HeaderCall(Success(bearer), current, reauth)
      else HeaderCall(Success(map[]), current, reauth)
  }

  /** Without a session no request is made and no header is sent. */
  lemma NoSessionNoHeader(before: int, after: int, reply: SsoReply)
    ensures GetAuthHeader(None, before, after, reply) == HeaderCall(Success(map[]), None, false)
  {
  }

  /** A refused re-authentication ends the session: nothing is sent and the
      expired token is forgotten. */
  lemma RefusedRenewalEndsSession(info: AuthInfo, before: int, after: int, reply: SsoReply)
    requires Expired(info, before) && reply.status != 200
    ensures GetAuthHeader(Some(info), before, after, reply) == HeaderCall(Success(map[]), None, true)
  {
  }

  /** A successful renewal whose new token is valid at the second clock
      reading sends the new token. */
  lemma RenewalSendsNewToken(info: AuthInfo, before: int, after: int, token: string, exp: int)
    requires Expired(info, before) && !Expired(AuthInfo(info.username, info.password, token, exp), after)
    ensures GetAuthHeader(Some(info), before, after, SsoReply(200, Some((token, exp)))).headers
            == Success(map["Authorization" := "Bearer " + token])
  {
  }

  /** The two clock readings differ: a session still valid at the first
      test but expired at the second is neither renewed nor sent. */
  lemma ExpiryBetweenReadings(info: AuthInfo, before: int, after: int, reply: SsoReply)
    requires !Expired(info, before) && Expired(info, after)
    ensures GetAuthHeader(Some(info), before, after, reply) == HeaderCall(Success(map[]), Some(info), false)
  {
  }
}
