/** The handlers and guards built on the session store: the GitHub OAuth callback,
    `/api/auth/me`, `/api/auth/logout`, the server middleware that guards `/api/admin`
    and the client navigation guard for the admin pages. */
module AuthRoutes {
  import opened Wrappers
  import opened Auth
  import Hex
  import Strings

  // ---------------------------------------------------------------------------
  // OAuth callback (server/api/auth/github/callback.get.ts)

  /** What the token exchange produced: the request or its JSON decoding threw, or a
      JSON body whose `access_token` may be missing. */
  datatype TokenReply = TokenRequestFailed | TokenJson(accessToken: Option<string>)

  /** What the user lookup produced: the request or its decoding threw, or a JSON body
      with an optional numeric `id` and a `login`. */
  datatype UserReply = UserRequestFailed | UserJson(id: Option<int>, login: string)

  /** The response of a handler (a redirect location or an error status), the state
      after it, and how many requests went to GitHub. */
  datatype CallbackResult = CallbackResult(response: Result<string>, state: AuthState, providerCalls: nat)

  /** `!user.id`: a missing id and the id 0 are both rejected. */
  predicate HasUserId(reply: UserReply) {
    reply.UserJson? && reply.id.Some? && reply.id.value != 0
  }

  /** The callback's chain of checks: code, access token, user id, allow-list. A request
      that throws inside `fetch` or `json()` is not caught and becomes a 500. */
  function Callback(st: AuthState, now: int, code: Option<string>, tokenReply: TokenReply,
                    userReply: UserReply, allowedGithubUserId: Option<string>, random: seq<Hex.byte>)
    : (r: CallbackResult)
    requires |random| == 32
    ensures !Strings.Truthy(code) ==> r == CallbackResult(Err(400), st, 0)
    ensures r.response.Err? ==> r.state == st
    ensures r.response.Ok? ==> r.response.value == "/admin" && r.providerCalls == 2
    ensures r.response.Ok? <==>
      && Strings.Truthy(code)
      && tokenReply.TokenJson? && Strings.Truthy(tokenReply.accessToken)
      && HasUserId(userReply)
      && IsAllowedUser(allowedGithubUserId, userReply.id.value)
      && GenerateSessionId(random) !in st.sessions
    ensures r.response == Err(401) <==>
      Strings.Truthy(code) && tokenReply.TokenJson? &&
      (!Strings.Truthy(tokenReply.accessToken) || (userReply.UserJson? && !HasUserId(userReply)))
    ensures r.response == Err(403) <==>
      Strings.Truthy(code) && tokenReply.TokenJson? && Strings.Truthy(tokenReply.accessToken) && HasUserId(userReply)
      && !IsAllowedUser(allowedGithubUserId, userReply.id.value)
  {
    if !Strings.Truthy(code) then CallbackResult(Err(400), st, 0)
    else match tokenReply
      case TokenRequestFailed => CallbackResult(Err(500), st, 1)
      case TokenJson(accessToken) =>
        if !Strings.Truthy(accessToken) then CallbackResult(Err(401), st, 1)
        else match userReply
          case UserRequestFailed => CallbackResult(Err(500), st, 2)
          case UserJson(id, login) =>
            if !HasUserId(userReply) then CallbackResult(Err(401), st, 2)
            else if !IsAllowedUser(allowedGithubUserId, id.value) then CallbackResult(Err(403), st, 2)
            else match CreateSession(st, now, random, id.value, login)
              case Err(status) => CallbackResult(Err(status), st, 2)
              case Ok((_, st')) => CallbackResult(Ok("/admin"), st', 2)
  }

  /** A successful callback leaves exactly one new session, for the GitHub user, which the
      very next request at the same instant is authenticated by; nothing else changes. */
  lemma CallbackSuccessCreatesOneSession(st: AuthState, now: int, code: Option<string>, tokenReply: TokenReply,
                                         userReply: UserReply, allowedGithubUserId: Option<string>, random: seq<Hex.byte>)
    requires |random| == 32
    requires Callback(st, now, code, tokenReply, userReply, allowedGithubUserId, random).response.Ok?
    ensures var st' := Callback(st, now, code, tokenReply, userReply, allowedGithubUserId, random).state;
      var token := GenerateSessionId(random);
      && st'.sessions.Keys == st.sessions.Keys + {token}
      && token !in st.sessions
      && (forall t | t in st.sessions :: st'.sessions[t] == st.sessions[t])
      && CookieToken(st') == Some(token)
      && GetAuthSession(st', now).0 == Some(Session(token, userReply.id.value, userReply.login, now, now + SessionMaxAge))
  {
  }

  // ---------------------------------------------------------------------------
  // GET /api/auth/me (server/api/auth/me.get.ts)

  /** The identity `/api/auth/me` reveals: no token and no timestamps. */
  datatype Identity = Identity(githubUserId: int, githubUsername: string)

  function Me(st: AuthState, now: int): (r: (Result<Identity>, AuthState))
    ensures r.1.sessions == st.sessions
    ensures r.0.Err? ==> r.0.status == 401
    ensures r.0.Ok? <==> CookieToken(st).Some? && Authenticates(st, CookieToken(st).value, now)
    ensures r.0.Ok? ==>
      var row := st.sessions[CookieToken(st).value];
      r.0.value == Identity(row.githubUserId, row.githubUsername) && r.1 == st
  {
    var (session, st') := GetAuthSession(st, now);
    match session
    case None => (Err(401), st')
    case Some(s) => (Ok(Identity(s.githubUserId, s.githubUsername)), st')
  }

  /** The answer depends only on the user id and name of the row: two live sessions for
      the same user with different ids, creation or expiry instants answer alike. */
  lemma MeRevealsOnlyIdentity(st1: AuthState, st2: AuthState, now: int)
    requires CookieToken(st1).Some? && Authenticates(st1, CookieToken(st1).value, now)
    requires CookieToken(st2).Some? && Authenticates(st2, CookieToken(st2).value, now)
    requires st1.sessions[CookieToken(st1).value].githubUserId == st2.sessions[CookieToken(st2).value].githubUserId
    requires st1.sessions[CookieToken(st1).value].githubUsername == st2.sessions[CookieToken(st2).value].githubUsername
    ensures Me(st1, now).0 == Me(st2, now).0
  {
  }

  // ---------------------------------------------------------------------------
  // POST /api/auth/logout (server/api/auth/logout.post.ts)

  /** Logout deletes the session and answers `{ success: true }`, with or without a cookie. */
  function Logout(st: AuthState): (r: (bool, AuthState))
    ensures r.0
    ensures r.1.cookie.None?
    ensures forall t | t in st.sessions && Some(t) != CookieToken(st) ::
      t in r.1.sessions && r.1.sessions[t] == st.sessions[t]
    ensures CookieToken(st).Some? ==> CookieToken(st).value !in r.1.sessions
  {
    (true, DeleteSession(st))
  }

  /** After logout the old cookie, even if replayed, authenticates nothing. */
  lemma LogoutRevokesToken(st: AuthState, now: int)
    requires CookieToken(st).Some?
    ensures GetAuthSession(Logout(st).1.(cookie := st.cookie), now).0.None?
  {
  }

  /** Logging out twice answers and leaves the store as logging out once. */
  lemma LogoutIdempotent(st: AuthState)
    ensures Logout(Logout(st).1) == Logout(st)
    ensures Logout(Logout(st).1.(cookie := st.cookie)) == Logout(st)
  {
    DeleteSessionIdempotent(st);
  }

  // ---------------------------------------------------------------------------
  // Server middleware (server/middleware/admin-auth.ts)

  const AdminApiPrefix: string := "/api/admin"

  datatype GuardDecision = Pass | Reject(status: int)

  /** Requests under the `/api/admin` prefix need a live session; all others pass untouched.
      The middleware resolves the session as `getAuthSession` does. */
  function ServerGuard(path: string, st: AuthState, now: int): (r: (GuardDecision, AuthState))
    ensures !(AdminApiPrefix <= path) ==> r == (Pass, st)
    ensures AdminApiPrefix <= path ==>
      (r.0 == Pass <==> CookieToken(st).Some? && Authenticates(st, CookieToken(st).value, now))
    ensures r.0.Reject? ==> r.0.status == 401
    ensures r.0 == Pass ==> r.1 == st
    ensures r.1.sessions == st.sessions
  {
    if !(AdminApiPrefix <= path) then (Pass, st)
    else
      var (session, st') := GetAuthSession(st, now);
      if session.None? then (Reject(401), st') else (Pass, st)
  }

  /** The login flow lives under `/api/auth`, outside the guarded prefix, so the guard
      never blocks it. */
  lemma AuthRoutesNeverGuarded(path: string, st: AuthState, now: int)
    requires "/api/auth" <= path
    ensures ServerGuard(path, st, now) == (Pass, st)
  {
    assert path[6] == 'u' != AdminApiPrefix[6];
  }

  /** The test is a plain string prefix: `/api/administrator` is guarded too. */
  lemma PrefixGuardsLongerNames(st: AuthState, now: int)
    requires CookieToken(st).None?
    ensures ServerGuard("/api/administrator", st, now).0 == Reject(401)
  {
    assert AdminApiPrefix <= "/api/administrator";
  }

  // ---------------------------------------------------------------------------
  // Client navigation guard (app/middleware/admin-auth.ts)

  const LoginPage: string := "/admin/login"

  datatype NavDecision = Continue | RedirectTo(path: string)

  /** The decision and whether the guard asked `/api/auth/me`. */
  datatype NavResult = NavResult(decision: NavDecision, probed: bool)

  /** The login page is exempt; server-side rendering is skipped; on the client a failing
      `/api/auth/me` probe redirects to the login page. */
  function ClientGuard(to: string, onServer: bool, probeSucceeds: bool): (r: NavResult)
    ensures to == LoginPage || onServer ==> r == NavResult(Continue, false)
    ensures to != LoginPage && !onServer ==>
      r.probed && (r.decision == Continue <==> probeSucceeds)
    ensures r.decision.RedirectTo? ==> r.decision.path == LoginPage
  {
    if to == LoginPage then NavResult(Continue, false)
    else if onServer then NavResult(Continue, false)
    else if probeSucceeds then NavResult(Continue, true)
    else NavResult(RedirectTo(LoginPage), true)
  }

  /** A redirect always lands on the login page, where the guard continues: no loop. */
  lemma ClientGuardNoRedirectLoop(to: string, onServer: bool, probe: bool, onServer': bool, probe': bool)
    requires ClientGuard(to, onServer, probe).decision.RedirectTo?
    ensures ClientGuard(ClientGuard(to, onServer, probe).decision.path, onServer', probe').decision == Continue
  {
  }

  /** On the client, with the probe answered by `/api/auth/me` against the same store,
      cookie and clock, the page guard lets a navigation through exactly when the server
      guard would let an admin API request through. */
  lemma ClientGuardAgreesWithServer(to: string, apiPath: string, st: AuthState, now: int)
    requires to != LoginPage && AdminApiPrefix <= apiPath
    ensures ClientGuard(to, false, Me(st, now).0.Ok?).decision == Continue
        <==> ServerGuard(apiPath, st, now).0 == Pass
  {
  }
}
