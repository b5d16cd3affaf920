/** `SessionRepo`: the session store's Go methods over the `sessions` table, with
    their error mapping. Each call takes the database's behaviour for that call
    (`Fault`) and, for writes, returns the table afterwards. `SessionService` is a
    one-line delegation to these methods and is identified with them. */
module SessionRepo {

  import opened Results
  import opened SessionTable

  /** The one error text most methods report, whatever went wrong. */
  const ErrSessionsInvalid: string := "INVALID_SESSIONS"

  /** A raw `database/sql` error: `sql.ErrNoRows`, or the driver's own failure. */
  datatype DbError = NoRows | DriverError(reason: string)

  /** The body of `CreateSession`: everything the caller chooses, id included. */
  datatype CreateSession = CreateSession(
    sessionId: string,
    userId: string,
    accessToken: string,
    ipAddress: string,
    userAgent: string,
    deviceInfo: string,
    expiresAt: int,
    lastActivity: int,
    isAccess: bool)

  datatype CheckValidity = CheckValidity(sessionId: string, userId: string)

  /** A write's answer together with the table it leaves behind. */
  datatype Written<T> = Written(table: Table, answer: T)

  /** The row `Create` writes: the request's nine fields, then the two clock
      readings taken for `created_at` and `updated_at`. */
  function NewRow(req: CreateSession, createdAt: int, updatedAt: int): (row: Session)
    ensures row.sessionId == req.sessionId && row.userId == req.userId
    ensures row.accessToken == req.accessToken && row.ipAddress == req.ipAddress
    ensures row.userAgent == req.userAgent && row.deviceInfo == req.deviceInfo
    ensures row.lastActivity == req.lastActivity && row.isAccess == req.isAccess
    ensures row.expiresAt == req.expiresAt
    ensures row.createdAt == createdAt && row.updatedAt == updatedAt
  {
    Session(req.sessionId, req.userId, req.accessToken, req.ipAddress, req.userAgent,
            req.deviceInfo, req.lastActivity, req.isAccess, req.expiresAt, createdAt, updatedAt)
  }

  /** `Create`: stores the caller's session id (no id is generated here) and returns
      the row as stored. Any failure, a duplicate key included, is INVALID_SESSIONS
      and leaves the table as it was. */
  function Create(t: Table, req: CreateSession, createdAt: int, updatedAt: int, db: Fault): (r: Written<Result<Session, string>>)
    ensures r.answer.Err? ==> r.answer.error == ErrSessionsInvalid && r.table == t
    ensures r.answer.Err? <==> db.Down? || req.sessionId in Ids(t)
    ensures r.answer.Ok? ==> r.answer.value == NewRow(req, createdAt, updatedAt)
    ensures r.answer.Ok? ==> r.table == t + [r.answer.value]
    ensures UniqueIds(t) ==> UniqueIds(r.table)
  {
    if db.Down? then Written(t, Err(ErrSessionsInvalid))
    else
      var row := NewRow(req, createdAt, updatedAt);
      match Insert(t, row)
      case None => Written(t, Err(ErrSessionsInvalid))
      case Some((t', stored)) => Written(t', Ok(stored))
  }

  /** `CheckValidatyUser`: the row matching both ids; no row or a failure is INVALID_SESSIONS. */
  function CheckValidityUser(t: Table, req: CheckValidity, db: Fault): (r: Result<Session, string>)
    ensures r.Err? ==> r.error == ErrSessionsInvalid
    ensures r.Ok? <==> db.Healthy? && exists x :: x in t && x.sessionId == req.sessionId && x.userId == req.userId
    ensures r.Ok? ==> r.value in t && r.value.sessionId == req.sessionId && r.value.userId == req.userId
  {
    if db.Down? then Err(ErrSessionsInvalid)
    else match SelectValidity(t, req.sessionId, req.userId)
      case None => Err(ErrSessionsInvalid)
      case Some(row) => Ok(row)
  }

  /** `GetBySessionID`: the row with that id; no row or a failure is INVALID_SESSIONS. */
  function GetBySessionId(t: Table, sessionId: string, db: Fault): (r: Result<Session, string>)
    ensures r.Err? ==> r.error == ErrSessionsInvalid
    ensures r.Ok? <==> db.Healthy? && sessionId in Ids(t)
    ensures r.Ok? ==> r.value in t && r.value.sessionId == sessionId
  {
    if db.Down? then Err(ErrSessionsInvalid)
    else match SelectBySessionId(t, sessionId)
      case None => Err(ErrSessionsInvalid)
      case Some(row) => Ok(row)
  }

  /** `GetByUserID`: all of the user's sessions, newest first; an empty list (not an
      error) when there are none. A failed query, scan or iteration gives
      INVALID_SESSIONS and no partial list. */
  function GetByUserId(t: Table, userId: string, db: Fault): (r: Result<seq<Session>, string>)
    ensures r.Err? <==> db.Down?
    ensures r.Err? ==> r.error == ErrSessionsInvalid
    ensures r.Ok? ==> NewestFirst(r.value)
    ensures r.Ok? ==> forall x :: x in r.value <==> x in t && x.userId == userId
    ensures r.Ok? ==> forall x :: x in r.value ==> multiset(r.value)[x] == multiset(t)[x]
  {
    if db.Down? then Err(ErrSessionsInvalid)
    else Ok(SelectByUserId(t, userId))
  }

  /** The `error` of an `Exec`: the driver's failure passed through, or nil. */
  function ExecError(db: Fault): (e: Option<DbError>)
    ensures e.None? <==> db.Healthy?
  {
    match db
    case Healthy => None
    case Down(reason) => Some(DriverError(reason))
  }

  /** `InvalidateSession`: hard-deletes that session. Deleting nothing is success;
      a store failure is returned unchanged and deletes nothing. */
  function InvalidateSession(t: Table, sessionId: string, db: Fault): (r: Written<Option<DbError>>)
    ensures r.answer.None? <==> db.Healthy?
    ensures db.Down? ==> r.answer == Some(DriverError(db.reason)) && r.table == t
    ensures db.Healthy? ==> forall x :: x in r.table <==> x in t && x.sessionId != sessionId
    ensures UniqueIds(t) ==> UniqueIds(r.table)
  {
    if db.Down? then Written(t, ExecError(db))
    else Written(DeleteBySessionId(t, sessionId), None)
  }

  /** `InvalidateAllUserSessions`: hard-deletes every session of that user. */
  function InvalidateAllUserSessions(t: Table, userId: string, db: Fault): (r: Written<Option<DbError>>)
    ensures r.answer.None? <==> db.Healthy?
    ensures db.Down? ==> r.answer == Some(DriverError(db.reason)) && r.table == t
    ensures db.Healthy? ==> forall x :: x in r.table <==> x in t && x.userId != userId
    ensures UniqueIds(t) ==> UniqueIds(r.table)
  {
    if db.Down? then Written(t, ExecError(db))
    else Written(DeleteByUserId(t, userId), None)
  }

  /** `UpdateLastActivity`: one clock reading `now` written to both timestamp columns
      of that session's row; an unknown id updates nothing and is still success. */
  function UpdateLastActivity(t: Table, sessionId: string, now: int, db: Fault): (r: Written<Option<DbError>>)
    ensures r.answer.None? <==> db.Healthy?
    ensures db.Down? ==> r.answer == Some(DriverError(db.reason)) && r.table == t
    ensures db.Healthy? ==> |r.table| == |t|
    ensures db.Healthy? ==> forall k :: 0 <= k < |t| && t[k].sessionId != sessionId ==> r.table[k] == t[k]
    ensures db.Healthy? ==> forall k :: 0 <= k < |t| && t[k].sessionId == sessionId ==>
              r.table[k] == t[k].(lastActivity := now, updatedAt := now)
    ensures Ids(r.table) == Ids(t)
    ensures UniqueIds(t) ==> UniqueIds(r.table)
  {
    if db.Down? then Written(t, ExecError(db))
    else
      TouchKeepsKeys(t, sessionId, now);
      Written(TouchBySessionId(t, sessionId, now), None)
  }

  /** `GetByAccessToken`: unlike its siblings it hands back the raw store error
      (`sql.ErrNoRows` when nothing matches) instead of INVALID_SESSIONS. */
  function GetByAccessToken(t: Table, token: string, db: Fault): (r: Result<Session, DbError>)
    ensures db.Down? ==> r == Err(DriverError(db.reason))
    ensures db.Healthy? && (forall x :: x in t ==> x.accessToken != token) ==> r == Err(NoRows)
    ensures r.Ok? ==> r.value in t && r.value.accessToken == token
    ensures db.Healthy? && r.Err? ==> r.error == NoRows
    ensures r.Ok? <==> db.Healthy? && exists x :: x in t && x.accessToken == token
  {
    if db.Down? then Err(DriverError(db.reason))
    else match SelectByAccessToken(t, token)
      case None => Err(NoRows)
      case Some(row) => Ok(row)
  }

  /** A session stored under a token no other row holds is what a lookup by that token returns. */
  lemma CreatedSessionFoundByToken(t: Table, req: CreateSession, createdAt: int, updatedAt: int)
    requires Create(t, req, createdAt, updatedAt, Healthy).answer.Ok?
    requires forall x :: x in t ==> x.accessToken != req.accessToken
    ensures GetByAccessToken(Create(t, req, createdAt, updatedAt, Healthy).table, req.accessToken, Healthy)
              == Ok(NewRow(req, createdAt, updatedAt))
  {
    var row := NewRow(req, createdAt, updatedAt);
    var t' := t + [row];
    assert forall m :: 0 <= m < |t| ==> t'[m] in t;
  }

  /** Invalidation is idempotent: the second call succeeds and changes nothing more. */
  lemma InvalidateSessionIdempotent(t: Table, sessionId: string)
    ensures var once := InvalidateSession(t, sessionId, Healthy);
            var twice := InvalidateSession(once.table, sessionId, Healthy);
            twice.answer.None? && twice.table == once.table
  {
    DeleteIdempotent(t, sessionId);
  }

  /** Invalidating one session leaves every other user's and every other session's row untouched. */
  lemma InvalidateSessionSparesOthers(t: Table, sessionId: string, x: Session)
    requires x in t && x.sessionId != sessionId
    ensures x in InvalidateSession(t, sessionId, Healthy).table
  {
  }

  /** After a healthy invalidation the session is gone: any lookup of it fails. */
  lemma InvalidatedSessionIsGone(t: Table, sessionId: string, db: Fault)
    ensures GetBySessionId(InvalidateSession(t, sessionId, Healthy).table, sessionId, db).Err?
  {
  }
}
