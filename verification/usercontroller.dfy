/** The users HTTP handlers as request-to-reply functions. The request principal is
    read from the context the authentication gate filled in. */
module UserController {

  import opened Results
  import opened Response
  import opened UserErrors
  import RandomId
  import UserRepo
  import UserService
  import SessionTable
  import SessionRepo
  import Tokens
  import Middleware

  /** The JSON body of a registration request. Role and balance may be present in it,
      but the handler never uses them. */
  datatype ReqData = ReqData(
    fullName: Option<string>,
    username: string,
    email: string,
    password: Option<string>,
    role: string,
    balance: int)

  /** The role and balance every self-registered account starts with. */
  const MemberRole: string := "Member"
  const StartingBalance: int := 0

  /** A cookie as the handler sets it. A negative max-age deletes it. */
  datatype Cookie = Cookie(name: string, value: string, maxAge: int)

  /** A reply together with the cookie and `Authorization` header it sets, if any. */
  datatype HttpResponse<D> = HttpResponse(reply: Reply<D>, cookie: Option<Cookie>, authorization: Option<string>)

  function Plain<D>(reply: Reply<D>): HttpResponse<D>
  {
    HttpResponse(reply, None, None)
  }

  /** What a handler does: respond, or panic before responding. */
  datatype Handled<D> = Responded(response: HttpResponse<D>) | Panicked

  /** The 401 every handler behind the gate answers when the context holds no principal. */
  function Unauthorized(): (e: ResponseError)
    ensures e.status == StatusUnauthorized && e.code == ErrUnauthorized && e.details == ""
  {
    NewResponseError(StatusUnauthorized, ErrUnauthorized, "Unauthorized")
  }

  // ----- registration -----

  /** The first validation failure of a registration body, in the order controller.go checks them. */
  function Validate(body: Result<ReqData, string>): (r: Option<ResponseError>)
    ensures body.Err? ==> r == Some(WithDetails(NewResponseError(StatusBadRequest, ErrInvalidInput, "Invalid Format request"), body.error))
    ensures r.Some? ==> r.value.status == StatusBadRequest
    ensures body.Ok? ==>
              (r.Some? <==> (body.value.username == "" || body.value.email == ""
                             || body.value.password.None? || body.value.password.value == ""))
    ensures body.Ok? && r.Some? ==> r.value.code == ErrMissingField
    ensures body.Ok? && body.value.username == "" ==> r.value.message == "Username is requeired"
    ensures body.Ok? && body.value.username != "" && body.value.email == "" ==> r.value.message == "Email is requeired"
  {
    match body
    case Err(bindError) =>
      Some(WithDetails(NewResponseError(StatusBadRequest, ErrInvalidInput, "Invalid Format request"), bindError))
    case Ok(req) =>
      if req.username == "" then Some(NewResponseError(StatusBadRequest, ErrMissingField, "Username is requeired"))
      else if req.email == "" then Some(NewResponseError(StatusBadRequest, ErrMissingField, "Email is requeired"))
      else if req.password.None? || req.password.value == "" then
        Some(NewResponseError(StatusBadRequest, ErrMissingField, "Password is required"))
      else None
  }

  /** The service request built from a validated body: role and balance are forced. */
  function ServiceRequest(req: ReqData): (c: UserRepo.CreateUser)
    ensures c.username == req.username && c.email == req.email && c.fullName == req.fullName
    ensures c.password == req.password
    ensures c.role == MemberRole && c.balance == StartingBalance
  {
    UserRepo.CreateUser(req.fullName, req.username, req.email, req.password, MemberRole, StartingBalance)
  }

  /** `CreateUser`: validation, then the service; 201 with the new user on success,
      the service's error verbatim otherwise. */
  function CreateUser(users: UserRepo.Users, body: Result<ReqData, string>, entropy: seq<RandomId.byte>,
                      h: Hasher, now: int, st: UserService.Stores): (r: (UserRepo.Users, Handled<UserRepo.UserData>))
    ensures Validate(body).Some? ==> r == (users, Responded(Plain(Error(Validate(body).value))))
    ensures Validate(body).None? ==>
              var s := UserService.Create(users, ServiceRequest(body.value), entropy, h, now, st);
              && r.0 == s.users
              && (s.answer.Created? ==> r.1 == Responded(Plain(Success(StatusCreated, s.answer.user))))
              && (s.answer.Failed? ==> r.1 == Responded(Plain(Error(s.answer.error))))
              && (s.answer.Panicked? <==> r.1.Panicked?)
    ensures r.0 != users ==> |r.0| == |users| + 1 && r.0[|users|].role == MemberRole && r.0[|users|].balance == StartingBalance
  {
    match Validate(body)
    case Some(e) => (users, Responded(Plain(Error(e))))
    case None =>
      var s := UserService.Create(users, ServiceRequest(body.value), entropy, h, now, st);
      match s.answer
      case Created(u) => (s.users, Responded(Plain(Success(StatusCreated, u))))
      case Failed(e) => (s.users, Responded(Plain(Error(e))))
      case Panicked => (s.users, Panicked)
  }

  /** Whatever role and balance the body carries, the account is created as a Member
      with a zero balance. */
  lemma RoleAndBalanceAreForced(users: UserRepo.Users, body: ReqData, role: string, balance: int,
                                entropy: seq<RandomId.byte>, h: Hasher, now: int, st: UserService.Stores)
    ensures CreateUser(users, Ok(body), entropy, h, now, st)
         == CreateUser(users, Ok(body.(role := role, balance := balance)), entropy, h, now, st)
  {
    assert ServiceRequest(body) == ServiceRequest(body.(role := role, balance := balance));
  }

  // ----- login -----

  /** What the login service hands back: the user and the new session's token, id and expiry. */
  datatype Grant = Grant(user: UserRepo.UserData, accessToken: string, sessionId: string, expiresAt: int)

  /** The `data` of a successful login reply. */
  datatype LoginPayload = LoginPayload(user: UserRepo.UserData, token: string, sessionId: string, expiresAt: int)

  /** The max-age of the login cookie: one day in seconds. */
  const CookieMaxAge: int := 24 * 60 * 60

  /** The login service, given the request, client address, user agent and device description. */
  type LoginService = (UserRepo.LoginUser, string, string, string) -> Result<Grant, string>

  function DeviceInfo(clientIp: string): (d: string)
    ensures |d| >= |clientIp| && d[|d| - |clientIp|..] == clientIp
  {
    "Device accessing from " + clientIp
  }

  /** `Login`. */
  function Login(body: Result<UserRepo.LoginUser, string>, clientIp: string, userAgent: string,
                 loginWithSession: LoginService): (r: HttpResponse<LoginPayload>)
    ensures body.Err? ==> r == Plain(Error(NewResponseError(StatusBadRequest, ErrInvalidInput, "Invalid Format Request")))
    ensures body.Ok? && (body.value.username == "" || body.value.password == "") ==>
              r == Plain(Error(NewResponseError(StatusBadRequest, ErrInvalidCredentials,
                                                "Invalid Login Username And Password Is Required")))
    ensures r.reply.status == StatusOK <==>
              body.Ok? && body.value.username != "" && body.value.password != ""
              && loginWithSession(body.value, clientIp, userAgent, DeviceInfo(clientIp)).Ok?
    ensures r.reply.status == StatusOK ==>
              var g := loginWithSession(body.value, clientIp, userAgent, DeviceInfo(clientIp)).value;
              && r.cookie == Some(Cookie(Middleware.CookieName, g.accessToken, CookieMaxAge))
              && r.authorization == Some(Middleware.BearerPrefix + g.accessToken)
              && r.reply.body == StatusBody("Login successful", Some(LoginPayload(g.user, g.accessToken, g.sessionId, g.expiresAt)))
    ensures r.reply.status != StatusOK ==> r.cookie.None? && r.authorization.None? && !r.reply.body.SuccessFlag()
  {
    match body
    case Err(_) => Plain(Error(NewResponseError(StatusBadRequest, ErrInvalidInput, "Invalid Format Request")))
    case Ok(req) =>
      if req.username == "" || req.password == "" then
        Plain(Error(NewResponseError(StatusBadRequest, ErrInvalidCredentials, "Invalid Login Username And Password Is Required")))
      else match loginWithSession(req, clientIp, userAgent, DeviceInfo(clientIp))
        case Err(_) => Plain(Error(NewResponseError(StatusUnauthorized, ErrUnauthorized, "User Not Authorized")))
        case Ok(g) =>
          HttpResponse(Reply(StatusOK, StatusBody("Login successful", Some(LoginPayload(g.user, g.accessToken, g.sessionId, g.expiresAt)))),
                   Some(Cookie(Middleware.CookieName, g.accessToken, CookieMaxAge)),
                   Some(Middleware.BearerPrefix + g.accessToken))
  }

  /** A caller cannot tell why a login failed: an unknown user, a wrong password and a
      store failure all produce the same 401 reply. */
  lemma LoginFailuresLookAlike(req1: UserRepo.LoginUser, req2: UserRepo.LoginUser, ip1: string, ip2: string,
                               ua1: string, ua2: string, f1: LoginService, f2: LoginService)
    requires req1.username != "" && req1.password != "" && req2.username != "" && req2.password != ""
    requires f1(req1, ip1, ua1, DeviceInfo(ip1)).Err? && f2(req2, ip2, ua2, DeviceInfo(ip2)).Err?
    ensures Login(Ok(req1), ip1, ua1, f1) == Login(Ok(req2), ip2, ua2, f2)
    ensures Login(Ok(req1), ip1, ua1, f1).reply.status == StatusUnauthorized
  {
  }

  /** A login service that fails exactly when the repository's credential check does. */
  ghost predicate ChecksCredentials(f: LoginService, users: UserRepo.Users, h: Hasher, db: Fault)
  {
    forall req, ip, ua, di :: UserRepo.Login(users, req, h, db).Err? ==> f(req, ip, ua, di).Err?
  }

  /** An unknown username and a wrong password for an existing one give the same reply,
      although the repository tells them apart. */
  lemma UnknownUserAndWrongPasswordLookAlike(users: UserRepo.Users, h: Hasher, db: Fault, f: LoginService,
                                             unknown: UserRepo.LoginUser, wrong: UserRepo.LoginUser, ip: string, ua: string)
    requires ChecksCredentials(f, users, h, db)
    requires unknown.username != "" && unknown.password != "" && wrong.username != "" && wrong.password != ""
    requires UserRepo.Login(users, unknown, h, db) == Err(UserRepo.InvalidCredentials)
    requires UserRepo.Login(users, wrong, h, db) == Err(UserRepo.InvalidPassword)
    ensures Login(Ok(unknown), ip, ua, f) == Login(Ok(wrong), ip, ua, f)
  {
    assert f(unknown, ip, ua, DeviceInfo(ip)).Err?;
    assert f(wrong, ip, ua, DeviceInfo(ip)).Err?;
  }

  /** An empty username or password is refused without consulting the login service. */
  lemma EmptyCredentialsSkipService(req: UserRepo.LoginUser, ip: string, ua: string, f1: LoginService, f2: LoginService)
    requires req.username == "" || req.password == ""
    ensures Login(Ok(req), ip, ua, f1) == Login(Ok(req), ip, ua, f2)
    ensures Login(Ok(req), ip, ua, f1).reply.status == StatusBadRequest
  {
  }

  // ----- the profile -----

  /** `GetProfile`: the principal's live user record, looked up by username. */
  function GetProfile(ctx: Middleware.ContextValue, users: UserRepo.Users, db: Fault): (r: Reply<UserRepo.UserData>)
    ensures Middleware.GetUserFromContext(ctx).Err? ==> r == Error(Unauthorized())
    ensures r.status == StatusOK <==>
              ctx.User? && UserRepo.GetUserByUsername(users, ctx.user.username, db).Ok?
    ensures ctx.User? && UserRepo.GetUserByUsername(users, ctx.user.username, db).Err? ==>
              r == Error(NewResponseError(StatusUnauthorized, ErrUserNotFound, "User Not Found,Please Login Frist!"))
    ensures r.status == StatusOK ==>
              r.body == SuccessBody(UserRepo.GetUserByUsername(users, ctx.user.username, db).value)
              && r.body.data.username == ctx.user.username && !r.body.data.isDeleted
  {
    match Middleware.GetUserFromContext(ctx)
    case Err(_) => Error(Unauthorized())
    case Ok(principal) =>
      match UserRepo.GetUserByUsername(users, principal.username, db)
      case Err(_) => Error(NewResponseError(StatusUnauthorized, ErrUserNotFound, "User Not Found,Please Login Frist!"))
      case Ok(u) => Success(StatusOK, u)
  }

  // ----- logout -----

  /** The `auth_token` cookie with an empty value and a negative max-age, which deletes it. */
  const ClearedCookie: Cookie := Cookie(Middleware.CookieName, "", -1)

  datatype LogoutState = LogoutState(users: UserRepo.Users, sessions: SessionTable.Table)

  /** `Logout`: soft-deletes the principal's user row, hard-deletes the current session,
      clears the cookie and the header, and answers 200 whatever the store says. */
  function Logout(ctx: Middleware.ContextValue, s: LogoutState, userDb: Fault, sessionDb: Fault): (r: (LogoutState, HttpResponse<string>))
    ensures !ctx.User? ==> r == (s, Plain(Error(Unauthorized())))
    ensures ctx.User? ==>
              && r.1 == HttpResponse(Success(StatusOK, "Logout successful"), Some(ClearedCookie), Some(""))
              && r.0.users == UserRepo.Logout(s.users, ctx.user.userId, userDb).users
              && r.0.sessions == UserRepo.DeleteSession(s.sessions, ctx.user.sessionId, sessionDb).0
    ensures ctx.User? && sessionDb.Healthy? ==> ctx.user.sessionId !in SessionTable.Ids(r.0.sessions)
  {
    match Middleware.GetUserFromContext(ctx)
    case Err(_) => (s, Plain(Error(Unauthorized())))
    case Ok(principal) =>
      var users := UserRepo.Logout(s.users, principal.userId, userDb).users;
      var sessions := UserRepo.DeleteSession(s.sessions, principal.sessionId, sessionDb).0;
      (LogoutState(users, sessions), HttpResponse(Success(StatusOK, "Logout successful"), Some(ClearedCookie), Some("")))
  }

  // ----- "log out everywhere" -----

  /** `ClearSessions`. The 500 passes its code and message the other way round: the
      code is the sentence and the message is INTERNAL_SERVER_ERROR. */
  function ClearSessions(ctx: Middleware.ContextValue, t: SessionTable.Table, db: Fault): (r: (SessionTable.Table, Reply<string>))
    ensures !ctx.User? ==> r == (t, Error(Unauthorized()))
    ensures ctx.User? && db.Down? ==>
              r == (t, Error(NewResponseError(StatusInternalServerError, "Failed to clear user sessions", ErrInternalServer)))
    ensures ctx.User? && db.Healthy? ==>
              && r.1 == Reply(StatusOK, StatusBody("All user sessions cleared successfully", None))
              && (forall x :: x in r.0 <==> x in t && x.userId != ctx.user.userId)
  {
    match Middleware.GetUserFromContext(ctx)
    case Err(_) => (t, Error(Unauthorized()))
    case Ok(principal) =>
      var w := SessionRepo.InvalidateAllUserSessions(t, principal.userId, db);
      if w.answer.Some? then
        (w.table, Error(NewResponseError(StatusInternalServerError, "Failed to clear user sessions", ErrInternalServer)))
      else (w.table, Reply(StatusOK, StatusBody("All user sessions cleared successfully", None)))
  }
}
