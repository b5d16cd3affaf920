/** The `sessions` table and the row-level meaning of each SQL statement of the
    session store. The table is the sequence of its rows in storage order; every
    statement is a pure function from the table to its answer or its successor.
    `session_id` is taken to be the table's primary key. */
module SessionTable {

  import opened Results

  /** One row of `sessions`, all eleven columns; times are Unix seconds. */
  datatype Session = Session(
    sessionId: string,
    userId: string,
    accessToken: string,
    ipAddress: string,
    userAgent: string,
    deviceInfo: string,
    lastActivity: int,
    isAccess: bool,
    expiresAt: int,
    createdAt: int,
    updatedAt: int)

  type Table = seq<Session>

  function Ids(t: Table): set<string>
  {
    set r | r in t :: r.sessionId
  }

  /** The primary-key invariant: no two rows share a `session_id`. */
  predicate UniqueIds(t: Table)
  {
    forall i, j :: 0 <= i < j < |t| ==> t[i].sessionId != t[j].sessionId
  }

  /** The rows of `t` that satisfy `p`, in storage order. */
  function Where(t: Table, p: Session -> bool): (r: Table)
    ensures forall x :: x in r <==> x in t && p(x)
    ensures |r| <= |t|
    ensures forall x :: x in r ==> multiset(r)[x] == multiset(t)[x]
  {
    if t == [] then []
    else
      var rest := Where(t[1..], p);
      assert t == [t[0]] + t[1..];
      if p(t[0]) then [t[0]] + rest else rest
  }

  /** Position of the first row satisfying `p`, or `|t|` when there is none. */
  function FirstIndex(t: Table, p: Session -> bool): (k: nat)
    ensures k <= |t|
    ensures forall m :: 0 <= m < k ==> !p(t[m])
    ensures k < |t| ==> p(t[k])
  {
    if t == [] || p(t[0]) then 0
    else 1 + FirstIndex(t[1..], p)
  }

  /** The row a single-row `SELECT ... WHERE p` scans: the first one in storage order. */
  function First(t: Table, p: Session -> bool): (r: Option<Session>)
    ensures r.None? <==> forall k :: 0 <= k < |t| ==> !p(t[k])
    ensures r.Some? ==> r.value in t && p(r.value)
  {
    var k := FirstIndex(t, p);
    if k < |t| then Some(t[k]) else None
  }

  // ----- QueryInsert -----

  /** `INSERT ... RETURNING` all eleven columns in insertion order: the new row is
      appended and handed back as written; a duplicate key inserts nothing. */
  function Insert(t: Table, row: Session): (r: Option<(Table, Session)>)
    ensures r.None? <==> row.sessionId in Ids(t)
    ensures r.Some? ==> r.value.1 == row && row in r.value.0 && |r.value.0| == |t| + 1
    ensures r.Some? ==> forall x :: x in t ==> x in r.value.0
    ensures r.Some? && UniqueIds(t) ==> UniqueIds(r.value.0)
  {
    if row.sessionId in Ids(t) then None
    else
      var t' := t + [row];
      assert forall k :: 0 <= k < |t| ==> t[k] in t;
      Some((t', row))
  }

  // ----- single-row selects -----

  /** QueryCheckValidity: the row whose `session_id` AND `user_id` both match. */
  function SelectValidity(t: Table, sessionId: string, userId: string): (r: Option<Session>)
    ensures r.Some? ==> r.value in t && r.value.sessionId == sessionId && r.value.userId == userId
    ensures r.None? <==> forall x :: x in t ==> x.sessionId != sessionId || x.userId != userId
  {
    First(t, (x: Session) => x.sessionId == sessionId && x.userId == userId)
  }

  /** QueryGetBySessionID: the row with that `session_id`. */
  function SelectBySessionId(t: Table, sessionId: string): (r: Option<Session>)
    ensures r.Some? ==> r.value in t && r.value.sessionId == sessionId
    ensures r.None? <==> sessionId !in Ids(t)
  {
    First(t, (x: Session) => x.sessionId == sessionId)
  }

  /** QueryGetByAccessToken: a row selected by `access_token` alone. */
  function SelectByAccessToken(t: Table, token: string): (r: Option<Session>)
    ensures r.Some? ==> r.value in t && r.value.accessToken == token
    ensures r.None? <==> forall x :: x in t ==> x.accessToken != token
  {
    First(t, (x: Session) => x.accessToken == token)
  }

  // ----- QueryGetByUserID: WHERE user_id = $1 ORDER BY created_at DESC -----

  predicate NewestFirst(s: seq<Session>)
  {
    forall i, j :: 0 <= i < j < |s| ==> s[i].createdAt >= s[j].createdAt
  }

  function InsertNewestFirst(x: Session, s: seq<Session>): (r: seq<Session>)
    requires NewestFirst(s)
    ensures NewestFirst(r)
    ensures multiset(r) == multiset(s) + multiset{x}
  {
    if s == [] || x.createdAt >= s[0].createdAt then
      HeadBoundsSorted(s);
      ConsNewestFirst(x, s);
      [x] + s
    else
      var rest := InsertNewestFirst(x, s[1..]);
      assert s == [s[0]] + s[1..];
      HeadBoundsSorted(s);
      BoundCarriesOver(s[0], s[1..], x, rest);
      ConsNewestFirst(s[0], rest);
      [s[0]] + rest
  }

  /** In a newest-first sequence no row is newer than the head. */
  lemma HeadBoundsSorted(s: seq<Session>)
    requires NewestFirst(s)
    ensures forall y :: y in s ==> y.createdAt <= s[0].createdAt
  {
    forall y | y in s
      ensures y.createdAt <= s[0].createdAt
    {
      var k :| 0 <= k < |s| && s[k] == y;
      if k > 0 {
        assert s[0].createdAt >= s[k].createdAt;
      }
    }
  }

  /** A row no older than any row of a permutation of `tail + [x]` bounds that permutation. */
  lemma BoundCarriesOver(h: Session, tail: seq<Session>, x: Session, rest: seq<Session>)
    requires forall y :: y in tail ==> y.createdAt <= h.createdAt
    requires x.createdAt <= h.createdAt
    requires multiset(rest) == multiset(tail) + multiset{x}
    ensures forall y :: y in rest ==> y.createdAt <= h.createdAt
  {
    forall y | y in rest
      ensures y.createdAt <= h.createdAt
    {
      assert y in multiset(rest);
      if y != x {
        assert y in multiset(tail);
      }
    }
  }

  /** Prepending a row no older than every row keeps a sequence newest-first. */
  lemma ConsNewestFirst(h: Session, t: seq<Session>)
    requires NewestFirst(t)
    requires forall y :: y in t ==> y.createdAt <= h.createdAt
    ensures NewestFirst([h] + t)
  {
    var r := [h] + t;
    forall i, j | 0 <= i < j < |r|
      ensures r[i].createdAt >= r[j].createdAt
    {
      assert r[j] == t[j - 1] && t[j - 1] in t;
      if i > 0 {
        assert r[i] == t[i - 1];
      }
    }
  }

  function SortNewestFirst(s: seq<Session>): (r: seq<Session>)
    ensures NewestFirst(r)
    ensures multiset(r) == multiset(s)
  {
    if s == [] then []
    else
      assert s == [s[0]] + s[1..];
      InsertNewestFirst(s[0], SortNewestFirst(s[1..]))
  }

  /** Every row of that user, and only those, newest first. */
  function SelectByUserId(t: Table, userId: string): (r: seq<Session>)
    ensures NewestFirst(r)
    ensures forall x :: x in r <==> x in t && x.userId == userId
    ensures forall x :: x in r ==> multiset(r)[x] == multiset(t)[x]
  {
    var rows := Where(t, (x: Session) => x.userId == userId);
    var r := SortNewestFirst(rows);
    assert forall x :: x in r <==> x in rows by {
      forall x ensures x in r <==> x in rows {
        assert x in r <==> x in multiset(r);
      }
    }
    r
  }

  // ----- deletes and the activity update -----

  /** QueryInvalidateSession: a hard delete keyed on `session_id`. */
  function DeleteBySessionId(t: Table, sessionId: string): (r: Table)
    ensures forall x :: x in r <==> x in t && x.sessionId != sessionId
    ensures sessionId !in Ids(r)
    ensures UniqueIds(t) ==> UniqueIds(r)
  {
    if t == [] then []
    else
      var rest := DeleteBySessionId(t[1..], sessionId);
      if t[0].sessionId == sessionId then rest else [t[0]] + rest
  }

  /** QueryInvalidateAllUserSessions: a hard delete of every row of that user. */
  function DeleteByUserId(t: Table, userId: string): (r: Table)
    ensures forall x :: x in r <==> x in t && x.userId != userId
    ensures UniqueIds(t) ==> UniqueIds(r)
  {
    if t == [] then []
    else
      var rest := DeleteByUserId(t[1..], userId);
      if t[0].userId == userId then rest else [t[0]] + rest
  }

  /** QueryUpdateLastActivity: `last_activity` and `updated_at` both set to the one
      timestamp, on the row with that `session_id` only. */
  function TouchBySessionId(t: Table, sessionId: string, now: int): (r: Table)
    ensures |r| == |t|
    ensures forall k :: 0 <= k < |t| && t[k].sessionId != sessionId ==> r[k] == t[k]
    ensures forall k :: 0 <= k < |t| && t[k].sessionId == sessionId ==>
              r[k].lastActivity == now && r[k].updatedAt == now
              && r[k] == t[k].(lastActivity := r[k].lastActivity, updatedAt := r[k].updatedAt)
  {
    if t == [] then []
    else
      var head := if t[0].sessionId == sessionId then t[0].(lastActivity := now, updatedAt := now) else t[0];
      [head] + TouchBySessionId(t[1..], sessionId, now)
  }

  // ----- properties relating several statements -----

  /** Deleting a session twice leaves the same table as deleting it once. */
  lemma {:induction false} DeleteIdempotent(t: Table, sessionId: string)
    ensures DeleteBySessionId(DeleteBySessionId(t, sessionId), sessionId) == DeleteBySessionId(t, sessionId)
  {
    if t != [] {
      DeleteIdempotent(t[1..], sessionId);
    }
  }

  /** Deleting one session keeps every other row, in its original order. */
  lemma {:induction false} DeleteKeepsOtherRowsInOrder(t: Table, sessionId: string)
    requires forall x :: x in t ==> x.sessionId != sessionId
    ensures DeleteBySessionId(t, sessionId) == t
  {
    if t != [] {
      DeleteKeepsOtherRowsInOrder(t[1..], sessionId);
    }
  }

  /** Revoking all of a user's sessions twice is the same as once. */
  lemma {:induction false} DeleteByUserIdempotent(t: Table, userId: string)
    ensures DeleteByUserId(DeleteByUserId(t, userId), userId) == DeleteByUserId(t, userId)
  {
    if t != [] {
      DeleteByUserIdempotent(t[1..], userId);
    }
  }

  /** Touching a session twice with the same clock reading is the same as once. */
  lemma {:induction false} TouchIdempotent(t: Table, sessionId: string, now: int)
    ensures TouchBySessionId(TouchBySessionId(t, sessionId, now), sessionId, now) == TouchBySessionId(t, sessionId, now)
  {
    if t != [] {
      TouchIdempotent(t[1..], sessionId, now);
    }
  }

  /** The activity update changes no key, so the table keeps its primary-key invariant
      and every session it held is still found, with the same owner and active flag. */
  lemma TouchKeepsKeys(t: Table, sessionId: string, now: int)
    ensures Ids(TouchBySessionId(t, sessionId, now)) == Ids(t)
    ensures UniqueIds(t) ==> UniqueIds(TouchBySessionId(t, sessionId, now))
  {
    var r := TouchBySessionId(t, sessionId, now);
    assert forall k :: 0 <= k < |t| ==> r[k].sessionId == t[k].sessionId;
    forall id | id in Ids(t) ensures id in Ids(r) {
      var x :| x in t && x.sessionId == id;
      var k :| 0 <= k < |t| && t[k] == x;
      assert r[k] in r;
    }
    forall id | id in Ids(r) ensures id in Ids(t) {
      var x :| x in r && x.sessionId == id;
      var k :| 0 <= k < |r| && r[k] == x;
      assert t[k] in t;
    }
  }

  /** A freshly inserted session is what a lookup by its id finds. */
  lemma InsertThenSelect(t: Table, row: Session)
    requires UniqueIds(t) && row.sessionId !in Ids(t)
    ensures Insert(t, row).Some?
    ensures SelectBySessionId(Insert(t, row).value.0, row.sessionId) == Some(row)
  {
    var t' := t + [row];
    var k := FirstIndex(t', (x: Session) => x.sessionId == row.sessionId);
    if k < |t| {
      assert t[k] in t;
    }
  }
}
