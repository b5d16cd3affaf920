/** `AuthMiddleware`: the per-request gate. It picks a token from the request,
    validates it, loads the session the token names, checks that session's
    `is_access` flag, touches its last activity (best effort) and attaches the
    principal. Each request ends in exactly one ACCEPT or one 401 REJECT. */
module Middleware {

  import opened Results
  import opened GoStrings
  import opened Tokens
  import opened SessionTable
  import SessionRepo

  const BearerPrefix: string := "Bearer "
  const CookieName: string := "auth_token"

  /** What the gate reads from a request: the `Authorization` header ("" when
      absent, as `GetHeader` returns it) and the value of the `auth_token` cookie. */
  datatype Request = Request(authorization: string, authCookie: Option<string>)

  /** Token selection: the header with exactly one `Bearer ` removed when it has that
      prefix; otherwise the cookie's value; otherwise the empty string. */
  function ExtractToken(req: Request): (token: string)
    ensures HasPrefix(req.authorization, BearerPrefix) ==> BearerPrefix + token == req.authorization
    ensures !HasPrefix(req.authorization, BearerPrefix) && req.authCookie.Some? ==> token == req.authCookie.value
    ensures !HasPrefix(req.authorization, BearerPrefix) && req.authCookie.None? ==> token == ""
  {
    if req.authorization != "" && HasPrefix(req.authorization, BearerPrefix) then
      TrimPrefix(req.authorization, BearerPrefix)
    else
      req.authCookie.GetOr("")
  }

  /** A bearer header wins: the cookie is never consulted. */
  lemma BearerHeaderIgnoresCookie(authorization: string, c1: Option<string>, c2: Option<string>)
    requires HasPrefix(authorization, BearerPrefix)
    ensures ExtractToken(Request(authorization, c1)) == ExtractToken(Request(authorization, c2))
  {
  }

  /** The three ways a request is turned away; each is a 401 with error "UNAUTHORIZED". */
  datatype Rejection = SessionMissing | SessionInactive | NoValidToken
  {
    function Message(): string
    {
      match this
      case SessionMissing => "Session is invalid or expired"
      case SessionInactive => "Session has been invalidated"
      case NoValidToken => "Authentication required"
    }

    function Details(): string
    {
      match this
      case SessionMissing => "Invalid session"
      case SessionInactive => "Inactive session"
      case NoValidToken => "No valid tokens found"
    }
  }

  const RejectStatus: int := 401
  const RejectCode: string := "UNAUTHORIZED"

  datatype Outcome = Accept(principal: UserData) | Reject(why: Rejection)

  /** The request's verdict and the session table after the best-effort activity update. */
  datatype Verdict = Verdict(outcome: Outcome, table: Table)

  /** The principal attached on ACCEPT: the claims' four identity fields, every other
      field at its Go zero value. */
  function PrincipalOf(c: Claims): (u: UserData)
    ensures u.userId == c.userId && u.email == c.email && u.username == c.username && u.sessionId == c.sessionId
    ensures u.fullname.None? && u.password.None? && u.updatedAt.None?
    ensures u.role == "" && !u.isDeleted && u.balance == 0 && u.createdAt == ZeroTime
  {
    UserData(c.userId, None, c.username, c.email, None, "", false, 0, ZeroTime, c.sessionId, None)
  }

  /** One pass of the middleware. `now` is the clock read by token validation,
      `lookup` how the store answers the session read, `touchedAt` and `touch` the
      clock and the store for the activity update. */
  function Authenticate(codec: Codec, req: Request, now: int, t: Table, lookup: Fault, touchedAt: int, touch: Fault): (v: Verdict)
    // ACCEPT exactly when the token is present and valid, names a stored session, and that session is active
    ensures v.outcome.Accept? <==>
              var token := ExtractToken(req);
              var claims := ValidateToken(codec, token, now);
              token != "" && claims.Ok? && lookup.Healthy? && claims.value.sessionId in Ids(t)
              && SessionRepo.GetBySessionId(t, claims.value.sessionId, lookup).value.isAccess
    ensures v.outcome.Accept? ==> v.outcome.principal == PrincipalOf(ValidateToken(codec, ExtractToken(req), now).value)
    // a token that does not validate is turned away before the store is consulted
    ensures ValidateToken(codec, ExtractToken(req), now).Err? ==> v == Verdict(Reject(NoValidToken), t)
    ensures ValidateToken(codec, ExtractToken(req), now).Ok? ==>
              var sid := ValidateToken(codec, ExtractToken(req), now).value.sessionId;
              && (lookup.Down? || sid !in Ids(t) <==> v.outcome == Reject(SessionMissing))
              && (v.outcome == Reject(SessionInactive) <==>
                    lookup.Healthy? && sid in Ids(t) && !SessionRepo.GetBySessionId(t, sid, lookup).value.isAccess)
    // only an accepted request writes, and only through the activity update
    ensures v.outcome.Reject? ==> v.table == t
    ensures v.outcome.Accept? ==>
              v.table == SessionRepo.UpdateLastActivity(t, v.outcome.principal.sessionId, touchedAt, touch).table
    ensures Ids(v.table) == Ids(t)
    ensures UniqueIds(t) ==> UniqueIds(v.table)
  {
    var token := ExtractToken(req);
    if token == "" then Verdict(Reject(NoValidToken), t)
    else match ValidateToken(codec, token, now)
      case Err(_) => Verdict(Reject(NoValidToken), t)
      case Ok(claims) =>
        match SessionRepo.GetBySessionId(t, claims.sessionId, lookup)
        case Err(_) => Verdict(Reject(SessionMissing), t)
        case Ok(session) =>
          if !session.isAccess then Verdict(Reject(SessionInactive), t)
          else
            // the update's error is dropped: the request proceeds either way
            var touched := SessionRepo.UpdateLastActivity(t, claims.sessionId, touchedAt, touch);
            Verdict(Accept(PrincipalOf(claims)), touched.table)
  }

  /** A failed activity update never changes the verdict, and the session row's own
      expiry and owner are never consulted: two tables that agree on which sessions
      exist and which are active give the same outcome. */
  lemma OutcomeIgnoresTouchAndRowDetails(codec: Codec, req: Request, now: int, t1: Table, t2: Table,
                                         lookup: Fault, at1: int, touch1: Fault, at2: int, touch2: Fault)
    requires Ids(t1) == Ids(t2)
    requires forall id :: id in Ids(t1) ==>
               SelectBySessionId(t1, id).value.isAccess == SelectBySessionId(t2, id).value.isAccess
    ensures Authenticate(codec, req, now, t1, lookup, at1, touch1).outcome
         == Authenticate(codec, req, now, t2, lookup, at2, touch2).outcome
  {
  }

  // ----- the request context -----

  /** The value stored under the context key "user": nothing, a `*UserData`, or something else. */
  datatype ContextValue = Unset | User(user: UserData) | Foreign

  datatype ContextError = UserNotInContext | InvalidUserType

  /** `GetUserFromGinContext`. */
  function GetUserFromContext(v: ContextValue): (r: Result<UserData, ContextError>)
    ensures v.Unset? <==> r == Err(UserNotInContext)
    ensures v.Foreign? <==> r == Err(InvalidUserType)
    ensures r.Ok? <==> v.User?
    ensures r.Ok? ==> r.value == v.user
  {
    match v
    case Unset => Err(UserNotInContext)
    case Foreign => Err(InvalidUserType)
    case User(u) => Ok(u)
  }

  /** What a handler behind the gate sees: the attached principal after ACCEPT;
      the handler does not run after REJECT. */
  function ContextAfter(o: Outcome): (v: ContextValue)
    requires o.Accept?
    ensures GetUserFromContext(v) == Ok(o.principal)
  {
    User(o.principal)
  }

  // ----- revocation -----

  /** Revoking a session locks out every token bound to it, although the token
      itself still validates. */
  lemma RevokedSessionRejected(codec: Codec, req: Request, now: int, t: Table, sid: string,
                               lookup: Fault, touchedAt: int, touch: Fault)
    requires ValidateToken(codec, ExtractToken(req), now).Ok?
    requires ValidateToken(codec, ExtractToken(req), now).value.sessionId == sid
    ensures var after := SessionRepo.InvalidateSession(t, sid, Healthy).table;
            Authenticate(codec, req, now, after, lookup, touchedAt, touch).outcome == Reject(SessionMissing)
  {
  }

  /** After "log out everywhere", every session the user's listing showed is rejected. */
  lemma RevokeAllRejectsListedSessions(codec: Codec, req: Request, now: int, t: Table, userId: string,
                                       listed: Session, lookup: Fault, touchedAt: int, touch: Fault)
    requires UniqueIds(t)
    requires SessionRepo.GetByUserId(t, userId, Healthy).Ok?
    requires listed in SessionRepo.GetByUserId(t, userId, Healthy).value
    requires ValidateToken(codec, ExtractToken(req), now).Ok?
    requires ValidateToken(codec, ExtractToken(req), now).value.sessionId == listed.sessionId
    ensures var after := SessionRepo.InvalidateAllUserSessions(t, userId, Healthy).table;
            Authenticate(codec, req, now, after, lookup, touchedAt, touch).outcome == Reject(SessionMissing)
  {
  }

  /** A token past its expiry second is refused even when its session is stored and
      active, and the store is left untouched. */
  lemma ExpiredTokenRejectedBeforeStore(codec: Codec, req: Request, now: int, t: Table,
                                        lookup: Fault, touchedAt: int, touch: Fault)
    requires codec.parse(ExtractToken(req)).Decoded?
    requires now >= codec.parse(ExtractToken(req)).claims.expiresAt
    ensures Authenticate(codec, req, now, t, lookup, touchedAt, touch) == Verdict(Reject(NoValidToken), t)
  {
  }
}
