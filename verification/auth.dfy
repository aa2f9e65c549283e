/** The session store behind the admin panel (server/utils/auth.ts).

    State: the `sessions` table, keyed by session id, and the browser's `session_id`
    cookie. Each function is one request: it reads the cookie the request carries and
    returns the store and cookie as they are after the response. Time is an explicit
    clock in whole seconds. */
module Auth {
  import opened Wrappers
  import Hex
  import Strings

  /** `SESSION_MAX_AGE`: seven days, in seconds. */
  const SessionMaxAge: int := 60 * 60 * 24 * 7

  /** One row of the `sessions` table, without its key. */
  datatype SessionRow = SessionRow(githubUserId: int, githubUsername: string, createdAt: int, expiresAt: int)

  /** A row together with its id, as `SELECT *` returns it. */
  datatype Session = Session(id: string, githubUserId: int, githubUsername: string, createdAt: int, expiresAt: int)

  /** The `session_id` cookie and the max-age it was set with. */
  datatype Cookie = Cookie(value: string, maxAge: int)

  datatype AuthState = AuthState(sessions: map<string, SessionRow>, cookie: Option<Cookie>)

  function ToSession(id: string, row: SessionRow): Session {
    Session(id, row.githubUserId, row.githubUsername, row.createdAt, row.expiresAt)
  }

  /** The session id a request presents: `getCookie` followed by the `!sessionId`
      test, so an empty cookie value counts as no cookie. */
  function CookieToken(st: AuthState): Option<string> {
    if st.cookie.Some? && st.cookie.value.value != "" then Some(st.cookie.value.value) else None
  }

  /** A session is live while the clock is before its expiry instant. */
  predicate IsLive(row: SessionRow, now: int) {
    now < row.expiresAt
  }

  /** The token is in the store and its row is live. */
  predicate Authenticates(st: AuthState, token: string, now: int) {
    token in st.sessions && IsLive(st.sessions[token], now)
  }

  /** `generateSessionId`: the 32 random bytes as 64 lower-case hex characters,
      two per byte; the bytes are recoverable from the text. */
  function GenerateSessionId(random: seq<Hex.byte>): (id: string)
    requires |random| == 32
    ensures |id| == 64
    ensures forall i | 0 <= i < |id| :: Hex.IsHexChar(id[i])
    ensures Hex.Decode(id) == Some(random)
  {
    Hex.DecodeEncode(random);
    Hex.Encode(random)
  }

  /** `createSession`: insert a row for the GitHub identity expiring seven days from now
      and set the cookie to the same id with the same max-age. An id already in the store
      violates the table's primary key and the insert throws (status 500). */
  function CreateSession(st: AuthState, now: int, random: seq<Hex.byte>, githubUserId: int, githubUsername: string)
    : (r: Result<(string, AuthState)>)
    requires |random| == 32
    ensures r.Err? <==> GenerateSessionId(random) in st.sessions
    ensures r.Err? ==> r.status == 500
    ensures r.Ok? ==>
      var (token, st') := r.value;
      && token == GenerateSessionId(random)
      && token !in st.sessions
      && st'.sessions.Keys == st.sessions.Keys + {token}
      && (forall t | t in st.sessions :: st'.sessions[t] == st.sessions[t])
      && st'.sessions[token] == SessionRow(githubUserId, githubUsername, now, now + 604800)
      && st'.cookie == Some(Cookie(token, 604800))
  {
    var token := GenerateSessionId(random);
    if token in st.sessions then Err(500)
    else
      var row := SessionRow(githubUserId, githubUsername, now, now + SessionMaxAge);
      Ok((token, AuthState(st.sessions[token := row], Some(Cookie(token, SessionMaxAge)))))
  }

  /** `getAuthSession`: the session the cookie names, if it is live; otherwise the cookie
      is deleted. The store is only read, so an expired row stays in it. */
  function GetAuthSession(st: AuthState, now: int): (r: (Option<Session>, AuthState))
    ensures r.1.sessions == st.sessions
    ensures CookieToken(st).None? ==> r == (None, st)
    ensures r.0.Some? <==> CookieToken(st).Some? && Authenticates(st, CookieToken(st).value, now)
    ensures r.0.Some? ==>
      var token := CookieToken(st).value;
      r.1 == st && r.0.value == ToSession(token, st.sessions[token]) && r.0.value.id == token
    ensures CookieToken(st).Some? && r.0.None? ==> r.1.cookie.None?
  {
    match CookieToken(st)
    case None => (None, st)
    case Some(token) =>
      if token in st.sessions && IsLive(st.sessions[token], now) then
        (Some(ToSession(token, st.sessions[token])), st)
      else
        (None, st.(cookie := None))
  }

  /** `deleteSession`: remove the row the cookie names, if any, and delete the cookie. */
  function DeleteSession(st: AuthState): (st': AuthState)
    ensures st'.cookie.None?
    ensures CookieToken(st).None? ==> st'.sessions == st.sessions
    ensures CookieToken(st).Some? ==> st'.sessions.Keys == st.sessions.Keys - {CookieToken(st).value}
    ensures forall t | t in st'.sessions :: t in st.sessions && st'.sessions[t] == st.sessions[t]
  {
    match CookieToken(st)
    case None => st.(cookie := None)
    case Some(token) => AuthState(st.sessions - {token}, None)
  }

  /** Deleting twice is deleting once, whether the second request carries no cookie
      (the browser dropped it) or replays the old one. */
  lemma DeleteSessionIdempotent(st: AuthState)
    ensures DeleteSession(DeleteSession(st)) == DeleteSession(st)
    ensures DeleteSession(DeleteSession(st).(cookie := st.cookie)) == DeleteSession(st)
  {
    if CookieToken(st).Some? {
      var token := CookieToken(st).value;
      var once := DeleteSession(st).sessions;
      assert once - {token} == once;
    }
  }

  /** `isAllowedUser`: with `ALLOWED_GITHUB_USER_ID` unset or empty nobody is allowed;
      otherwise only the id `parseInt(value, 10)` yields. */
  function IsAllowedUser(allowedGithubUserId: Option<string>, githubUserId: int): (r: bool)
    ensures allowedGithubUserId.None? || allowedGithubUserId.value == "" ==> !r
    ensures r <==> allowedGithubUserId.Some? && allowedGithubUserId.value != ""
                   && Strings.ParseInt(allowedGithubUserId.value) == Some(githubUserId)
  {
    match allowedGithubUserId
    case None => false
    case Some(text) => text != "" && Strings.ParseInt(text) == Some(githubUserId)
  }

  /** Configuring the decimal text of an id admits exactly that id. */
  lemma AllowListAdmitsConfiguredIdOnly(configured: int, githubUserId: int)
    ensures IsAllowedUser(Some(Strings.IntToDecimal(configured)), githubUserId) <==> githubUserId == configured
  {
    Strings.ParseIntRoundTrip(configured);
  }

  // ---------------------------------------------------------------------------
  // The expiry test as the query writes it

  const SecondsPerDay: nat := 86400

  /** Instants whose calendar day fits the ten-character date field. */
  const InstantBound: nat := SecondsPerDay * Strings.Pow10(10)

  /** The date part of a timestamp. A calendar date `YYYY-MM-DD` is ten characters that
      sort in day order; the model writes the day number zero-padded to ten digits,
      which has the same two properties. */
  function DateText(t: nat): (r: string)
    requires t < InstantBound
    ensures |r| == 10
  {
    Strings.PadDecimal(t / SecondsPerDay, 10)
  }

  function TimeText(t: nat): string {
    var s := t % SecondsPerDay;
    Strings.PadDecimal(s / 3600, 2) + ":" + Strings.PadDecimal(s % 3600 / 60, 2) + ":" + Strings.PadDecimal(s % 60, 2)
  }

  /** `new Date(t).toISOString()`, the text `createSession` stores in `expires_at`. */
  function IsoText(t: nat): string
    requires t < InstantBound
  {
    DateText(t) + "T" + TimeText(t) + ".000Z"
  }

  /** SQLite's `datetime('now')`. */
  function SqliteText(t: nat): string
    requires t < InstantBound
  {
    DateText(t) + " " + TimeText(t)
  }

  /** The query's test `expires_at > datetime('now')`: a comparison of the two texts. */
  predicate LiveAsWritten(expiresAt: nat, now: nat)
    requires expiresAt < InstantBound && now < InstantBound
  {
    !Strings.LexLe(IsoText(expiresAt), SqliteText(now))
  }

  /** The text comparison decides at the tenth character: on the expiry date itself
      `T` sorts after the space, so a session stays live until the end of the UTC day
      on which it expires, not until its expiry instant. */
  lemma LiveAsWrittenIsDayGranular(expiresAt: nat, now: nat)
    requires expiresAt < InstantBound && now < InstantBound
    ensures LiveAsWritten(expiresAt, now) <==> expiresAt / SecondsPerDay >= now / SecondsPerDay
  {
    var de, dn := DateText(expiresAt), DateText(now);
    var restE := "T" + TimeText(expiresAt) + ".000Z";
    var restN := " " + TimeText(now);
    assert IsoText(expiresAt) == de + restE;
    assert SqliteText(now) == dn + restN;
    Strings.LexLeAppend(de, dn, restE, restN);
    Strings.PadDecimalOrder(expiresAt / SecondsPerDay, now / SecondsPerDay, 10);
    assert !Strings.LexLe(restE, restN);
  }

  /** A session that expired an hour ago is still accepted by the query as written. */
  lemma LiveAsWrittenAcceptsExpiredSession()
    ensures var expiresAt := 20000 * SecondsPerDay + 3600;
      var row := SessionRow(1, "admin", expiresAt - SessionMaxAge, expiresAt);
      var now := expiresAt + 3600;
      !IsLive(row, now) && LiveAsWritten(expiresAt, now)
  {
    var expiresAt := 20000 * SecondsPerDay + 3600;
    LiveAsWrittenIsDayGranular(expiresAt, expiresAt + 3600);
  }
}
