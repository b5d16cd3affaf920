/** End-to-end runs across the modules: a session is stored, its token passes the
    gate, and revocation, logout or "log out everywhere" lock the token out again. */
module Lifecycle {

  import opened Results
  import opened Tokens
  import opened SessionTable
  import SessionRepo
  import Middleware
  import UserRepo
  import UserController

  // ----- the library assumption is satisfiable -----

  const OnlyClaims: Claims := Claims("u1", "a@b.c", "alice", "s1", 0, 3600, "issuer")
  const OnlyToken: string := "t1"

  /** A library that can sign exactly one claim set. */
  function OneTokenCodec(): (codec: Codec)
    ensures codec.sign(HS256, OnlyClaims) == Some(OnlyToken)
    ensures codec.parse(OnlyToken) == Decoded(HS256, OnlyClaims, true)
    ensures forall s :: s != OnlyToken ==> codec.parse(s) == Malformed
  {
    Codec((a: Alg, c: Claims) => if a == HS256 && c == OnlyClaims then Some(OnlyToken) else None,
          (s: string) => if s == OnlyToken then Decoded(HS256, OnlyClaims, true) else Malformed)
  }

  /** `Sound` is not vacuous: a concrete library meets it. */
  lemma OneTokenCodecIsSound()
    ensures Sound(OneTokenCodec())
  {
  }

  /** The one token validates inside its lifetime and nowhere else. */
  lemma OneTokenValidatesInsideLifetime(now: int)
    ensures ValidateToken(OneTokenCodec(), OnlyToken, now).Ok? <==> 0 <= now < 3600
  {
  }

  // ----- a session's life -----

  /** A `Bearer` header carries exactly the token that follows the prefix. */
  lemma BearerCarriesToken(token: string, cookie: Option<string>)
    ensures Middleware.ExtractToken(Middleware.Request(Middleware.BearerPrefix + token, cookie)) == token
  {
    var auth := Middleware.BearerPrefix + token;
    assert auth[..|Middleware.BearerPrefix|] == Middleware.BearerPrefix;
    var got := Middleware.ExtractToken(Middleware.Request(auth, cookie));
    assert Middleware.BearerPrefix + got == auth;
    assert got == auth[|Middleware.BearerPrefix|..];
  }

  /** The session row login would store for a freshly generated token. */
  function LoginRow(user: UserData, token: string, expiresAt: int, ip: string, ua: string, device: string, at: int): (req: SessionRepo.CreateSession)
    ensures req.sessionId == user.sessionId && req.userId == user.userId && req.accessToken == token
    ensures req.isAccess
  {
    SessionRepo.CreateSession(user.sessionId, user.userId, token, ip, ua, device, expiresAt, at, true)
  }

  /** Generate a token, store its session, present it as a bearer token: the gate
      accepts the user the token was made for. Revoke the session: the same
      request is turned away as a missing session. */
  lemma StoreAcceptRevoke(codec: Codec, user: UserData, hours: int, issuedAt: int, issuer: string,
                          t: Table, ip: string, ua: string, device: string, createdAt: int, updatedAt: int,
                          cookie: Option<string>, now: int, touchedAt: int, touch: Fault)
    requires Sound(codec)
    requires UniqueIds(t) && user.sessionId !in Ids(t)
    requires GenerateToken(codec, Some(user), hours, issuedAt, issuer).Ok?
    requires issuedAt <= now < TokenClaims(user, hours, issuedAt, issuer).expiresAt
    ensures var token := GenerateToken(codec, Some(user), hours, issuedAt, issuer).value;
            var stored := SessionRepo.Create(t, LoginRow(user, token, TokenClaims(user, hours, issuedAt, issuer).expiresAt,
                                                          ip, ua, device, createdAt), createdAt, updatedAt, Healthy).table;
            var req := Middleware.Request(Middleware.BearerPrefix + token, cookie);
            var v := Middleware.Authenticate(codec, req, now, stored, Healthy, touchedAt, touch);
            && v.outcome.Accept?
            && v.outcome.principal.userId == user.userId
            && v.outcome.principal.sessionId == user.sessionId
            && Middleware.Authenticate(codec, req, now, SessionRepo.InvalidateSession(stored, user.sessionId, Healthy).table,
                                       Healthy, touchedAt, touch).outcome == Middleware.Reject(Middleware.SessionMissing)
  {
    var token := GenerateToken(codec, Some(user), hours, issuedAt, issuer).value;
    GenerateThenValidate(codec, user, hours, issuedAt, issuer, now);
    BearerCarriesToken(token, cookie);
    var row := LoginRow(user, token, TokenClaims(user, hours, issuedAt, issuer).expiresAt, ip, ua, device, createdAt);
    var w := SessionRepo.Create(t, row, createdAt, updatedAt, Healthy);
    assert w.answer.Ok?;
    InsertThenSelect(t, w.answer.value);
  }

  /** Logging out through the handler deletes the session the request came in on, so
      the same request, presented again at any later moment, is turned away. */
  lemma LogoutLocksOutCurrentRequest(codec: Codec, req: Middleware.Request, now: int, t: Table, touchedAt: int, touch: Fault,
                                     users: UserRepo.Users, userDb: Fault, later: int, lookup: Fault, at2: int, touch2: Fault)
    requires Middleware.Authenticate(codec, req, now, t, Healthy, touchedAt, touch).outcome.Accept?
    ensures var v := Middleware.Authenticate(codec, req, now, t, Healthy, touchedAt, touch);
            var r := UserController.Logout(Middleware.ContextAfter(v.outcome), UserController.LogoutState(users, v.table), userDb, Healthy);
            && r.1.reply.status == 200
            && Middleware.Authenticate(codec, req, later, r.0.sessions, lookup, at2, touch2).outcome.Reject?
  {
    var v := Middleware.Authenticate(codec, req, now, t, Healthy, touchedAt, touch);
    var sid := v.outcome.principal.sessionId;
    var r := UserController.Logout(Middleware.ContextAfter(v.outcome), UserController.LogoutState(users, v.table), userDb, Healthy);
    assert sid !in Ids(r.0.sessions);
  }

  /** Under the primary key, a row the lookup found is the only row with its id. */
  lemma {:induction false} SelectedRowIsTheOnlyOne(t: Table, sid: string)
    requires UniqueIds(t) && sid in Ids(t)
    ensures forall x :: x in t && x.sessionId == sid ==> x == SelectBySessionId(t, sid).value
  {
    var row := SelectBySessionId(t, sid).value;
    forall x | x in t && x.sessionId == sid
      ensures x == row
    {
      var i :| 0 <= i < |t| && t[i] == x;
      var j :| 0 <= j < |t| && t[j] == row;
      assert !(i < j) && !(j < i);
    }
  }

  /** The activity update leaves every session with its owner. */
  lemma {:induction false} TouchKeepsOwner(t: Table, sid: string, owner: string, at: int, touch: Fault)
    requires forall x :: x in t && x.sessionId == sid ==> x.userId == owner
    ensures forall x :: x in SessionRepo.UpdateLastActivity(t, sid, at, touch).table && x.sessionId == sid ==> x.userId == owner
  {
    var r := SessionRepo.UpdateLastActivity(t, sid, at, touch).table;
    forall x | x in r && x.sessionId == sid
      ensures x.userId == owner
    {
      var k :| 0 <= k < |r| && r[k] == x;
      if touch.Healthy? {
        assert t[k] in t;
      }
    }
  }

  /** "Log out everywhere" locks out the current request only when the session row
      belongs to the user the token names: the gate never compares the two. */
  lemma ClearSessionsLocksOutOwnSession(codec: Codec, req: Middleware.Request, now: int, t: Table, touchedAt: int, touch: Fault,
                                        later: int, lookup: Fault, at2: int, touch2: Fault)
    requires UniqueIds(t)
    requires Middleware.Authenticate(codec, req, now, t, Healthy, touchedAt, touch).outcome.Accept?
    requires var c := ValidateToken(codec, Middleware.ExtractToken(req), now).value;
             SelectBySessionId(t, c.sessionId).value.userId == c.userId
    ensures var v := Middleware.Authenticate(codec, req, now, t, Healthy, touchedAt, touch);
            var r := UserController.ClearSessions(Middleware.ContextAfter(v.outcome), v.table, Healthy);
            && r.1.status == 200
            && Middleware.Authenticate(codec, req, later, r.0, lookup, at2, touch2).outcome.Reject?
  {
    var c := ValidateToken(codec, Middleware.ExtractToken(req), now).value;
    var v := Middleware.Authenticate(codec, req, now, t, Healthy, touchedAt, touch);
    SelectedRowIsTheOnlyOne(t, c.sessionId);
    TouchKeepsOwner(t, c.sessionId, c.userId, touchedAt, touch);
    var r := UserController.ClearSessions(Middleware.ContextAfter(v.outcome), v.table, Healthy);
    assert c.sessionId !in Ids(r.0);
  }
}
