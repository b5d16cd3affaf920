/** `UserRepositories`: the `users` table and the statements the users service runs
    against it, plus the one statement it runs against `sessions`. Lookups skip
    soft-deleted rows; "logout" soft-deletes the user. */
module UserRepo {

  import opened Results
  import opened Response
  import opened UserErrors
  import RandomId
  import SessionTable

  /** One row of `users`. Times are Unix seconds. */
  datatype UserRow = UserRow(
    userId: string,
    fullName: Option<string>,
    username: string,
    email: string,
    passwordHash: string,
    role: string,
    balance: int,
    isDeleted: bool,
    createdAt: int,
    updatedAt: int)

  type Users = seq<UserRow>

  /** `users.UserData` as the selects return it: every column but the password. */
  datatype UserData = UserData(
    userId: string,
    fullName: Option<string>,
    username: string,
    email: string,
    role: string,
    isDeleted: bool,
    balance: int,
    createdAt: int,
    updatedAt: Option<int>)

  function View(row: UserRow): (u: UserData)
    ensures u.userId == row.userId && u.username == row.username && u.email == row.email
    ensures u.fullName == row.fullName && u.role == row.role && u.balance == row.balance
    ensures u.isDeleted == row.isDeleted && u.createdAt == row.createdAt && u.updatedAt == Some(row.updatedAt)
  {
    UserData(row.userId, row.fullName, row.username, row.email, row.role, row.isDeleted,
             row.balance, row.createdAt, Some(row.updatedAt))
  }

  /** The body of `CreateUser`; `password` is a nil-able `*string`. */
  datatype CreateUser = CreateUser(
    fullName: Option<string>,
    username: string,
    email: string,
    password: Option<string>,
    role: string,
    balance: int)

  datatype LoginUser = LoginUser(username: string, password: string)

  /** A failed lookup: the repository's own "not found" for `sql.ErrNoRows`, or the
      store's error passed through. */
  datatype LookupError = NotFound | StoreFailure(reason: string)
  {
    /** `err.Error()`. */
    function Text(): string
    {
      match this
      case NotFound => "not found"
      case StoreFailure(reason) => reason
    }
  }

  /** Bytes of randomness in a user id; the id is twice as many hex digits. */
  const UserIdBytes: int := 10

  /** How `Create` ends: a row, an error reply, or a panic of the id generator. */
  datatype CreateOutcome = Created(user: UserData) | Failed(error: ResponseError) | Panicked

  datatype Written<T> = Written(users: Users, answer: T)

  /** `Create`: a random 20-digit hex id, the password hashed, `is_deleted = false`,
      `created_at` and `updated_at` from one clock reading. A hashing or store
      failure is a 500 INTERNAL_SERVER_ERROR whose details are the error's text.
      `UserRepositories.Create` dereferences the password, so it must be present. */
  function Create(users: Users, req: CreateUser, entropy: seq<RandomId.byte>, h: Hasher, now: int, db: Fault): (r: Written<CreateOutcome>)
    requires req.password.Some?
    ensures r.answer.Panicked? <==> |entropy| < UserIdBytes
    ensures !r.answer.Created? ==> r.users == users
    ensures |entropy| >= UserIdBytes && HashPassword(h, req.password.value).Err? ==>
              r.answer == Failed(ErrInternalServerError(HashPassword(h, req.password.value).error))
    ensures |entropy| >= UserIdBytes && HashPassword(h, req.password.value).Ok? && db.Down? ==>
              r.answer == Failed(ErrInternalServerError(db.reason))
    ensures r.answer.Created? <==> |entropy| >= UserIdBytes && HashPassword(h, req.password.value).Ok? && db.Healthy?
    ensures r.answer.Created? ==> |r.users| == |users| + 1
    ensures r.answer.Created? ==>
              var row := r.users[|r.users| - 1];
              && r.users == users + [row]
              && r.answer.user == View(row)
              && |row.userId| == 2 * UserIdBytes
              && (forall k :: 0 <= k < |row.userId| ==> RandomId.IsLowerHex(row.userId[k]))
              && row.username == req.username && row.email == req.email && row.fullName == req.fullName
              && row.role == req.role && row.balance == req.balance
              && row.passwordHash == HashPassword(h, req.password.value).value
              && !row.isDeleted && row.createdAt == now && row.updatedAt == now
  {
    match RandomId.GenerateRandomId(RandomId.IdOpts(None, UserIdBytes), entropy)
    case None => Written(users, Panicked)
    case Some(userId) =>
      match HashPassword(h, req.password.value)
      case Err(e) => Written(users, Failed(ErrInternalServerError(e)))
      case Ok(hashed) =>
        if db.Down? then Written(users, Failed(ErrInternalServerError(db.reason)))
        else
          var row := UserRow(userId, req.fullName, req.username, req.email, hashed,
                             req.role, req.balance, false, now, now);
          Written(users + [row], Created(View(row)))
  }

  /** Index of the first live row satisfying `p`, or `|users|`. */
  function FirstLive(users: Users, p: UserRow -> bool): (k: nat)
    ensures k <= |users|
    ensures forall m :: 0 <= m < k ==> users[m].isDeleted || !p(users[m])
    ensures k < |users| ==> !users[k].isDeleted && p(users[k])
  {
    if users == [] || (!users[0].isDeleted && p(users[0])) then 0
    else 1 + FirstLive(users[1..], p)
  }

  /** A single-row `SELECT ... WHERE p AND is_deleted = false`. */
  function SelectLive(users: Users, p: UserRow -> bool, db: Fault): (r: Result<UserData, LookupError>)
    ensures db.Down? ==> r == Err(StoreFailure(db.reason))
    ensures db.Healthy? && r.Err? ==> r.error == NotFound
    ensures r.Err? && r.error == NotFound <==> db.Healthy? && forall k :: 0 <= k < |users| ==> users[k].isDeleted || !p(users[k])
    ensures r.Ok? ==> exists k :: 0 <= k < |users| && !users[k].isDeleted && p(users[k]) && r.value == View(users[k])
  {
    if db.Down? then Err(StoreFailure(db.reason))
    else
      var k := FirstLive(users, p);
      if k < |users| then Ok(View(users[k])) else Err(NotFound)
  }

  /** `GetUserByID`: the live user with that id, or "not found". */
  function GetUserById(users: Users, userId: string, db: Fault): (r: Result<UserData, LookupError>)
    ensures r.Ok? ==> r.value.userId == userId && !r.value.isDeleted
    ensures r.Ok? ==> exists x :: x in users && !x.isDeleted && x.userId == userId && r.value == View(x)
    ensures r == Err(NotFound) <==> db.Healthy? && forall x :: x in users && x.userId == userId ==> x.isDeleted
    ensures db.Down? ==> r == Err(StoreFailure(db.reason))
    ensures db.Healthy? ==> !(r.Err? && r.error.StoreFailure?)
  {
    SelectLive(users, (x: UserRow) => x.userId == userId, db)
  }

  /** `GetUserByUsername`: the live user with that username, or "not found". */
  function GetUserByUsername(users: Users, username: string, db: Fault): (r: Result<UserData, LookupError>)
    ensures r.Ok? ==> r.value.username == username && !r.value.isDeleted
    ensures r.Ok? ==> exists x :: x in users && !x.isDeleted && x.username == username && r.value == View(x)
    ensures r == Err(NotFound) <==> db.Healthy? && forall x :: x in users && x.username == username ==> x.isDeleted
    ensures db.Down? ==> r == Err(StoreFailure(db.reason))
    ensures db.Healthy? ==> !(r.Err? && r.error.StoreFailure?)
  {
    SelectLive(users, (x: UserRow) => x.username == username, db)
  }

  /** `GetUserByEmail`: the live user with that email, or "not found". */
  function GetUserByEmail(users: Users, email: string, db: Fault): (r: Result<UserData, LookupError>)
    ensures r.Ok? ==> r.value.email == email && !r.value.isDeleted
    ensures r.Ok? ==> exists x :: x in users && !x.isDeleted && x.email == email && r.value == View(x)
    ensures r == Err(NotFound) <==> db.Healthy? && forall x :: x in users && x.email == email ==> x.isDeleted
    ensures db.Down? ==> r == Err(StoreFailure(db.reason))
    ensures db.Healthy? ==> !(r.Err? && r.error.StoreFailure?)
  {
    SelectLive(users, (x: UserRow) => x.email == email, db)
  }

  /** Why `Login` refused: no live user of that name, a password that does not
      verify, or the store's own error. */
  datatype LoginError = InvalidCredentials | InvalidPassword | LoginStoreFailure(reason: string)
  {
    function Text(): string
    {
      match this
      case InvalidCredentials => ErrInvalidCredentials
      case InvalidPassword => ErrInvalidPassword
      case LoginStoreFailure(reason) => reason
    }
  }

  /** `Login`: the first live user with that username, returned only when the
      password verifies against its stored hash. */
  function Login(users: Users, req: LoginUser, h: Hasher, db: Fault): (r: Result<UserData, LoginError>)
    ensures db.Down? ==> r == Err(LoginStoreFailure(db.reason))
    ensures r == Err(InvalidCredentials) <==>
              db.Healthy? && forall x :: x in users && x.username == req.username ==> x.isDeleted
    ensures r.Ok? ==>
              (exists x :: x in users && !x.isDeleted && x.username == req.username
                             && ComparePassword(h, x.passwordHash, req.password) && r.value == View(x))
    ensures r == Err(InvalidPassword) ==>
              (exists x :: x in users && !x.isDeleted && x.username == req.username
                             && !ComparePassword(h, x.passwordHash, req.password))
    ensures db.Healthy? ==> !(r.Err? && r.error.LoginStoreFailure?)
    // the row the select returns decides: its hash verifies exactly when login succeeds
    ensures var k := FirstLive(users, (x: UserRow) => x.username == req.username);
            db.Healthy? && k < |users| ==>
              && (r.Ok? <==> ComparePassword(h, users[k].passwordHash, req.password))
              && (r.Ok? ==> r.value == View(users[k]))
              && (r.Err? ==> r.error == InvalidPassword)
  {
    if db.Down? then Err(LoginStoreFailure(db.reason))
    else
      var k := FirstLive(users, (x: UserRow) => x.username == req.username);
      if k == |users| then Err(InvalidCredentials)
      else if !ComparePassword(h, users[k].passwordHash, req.password) then Err(InvalidPassword)
      else Ok(View(users[k]))
  }

  /** When one live user holds the name, the password alone decides: a hash that
      verifies logs that user in, one that does not answers INVALID_PASSWORD. */
  lemma LoginDecidedByPassword(users: Users, req: LoginUser, h: Hasher, x: UserRow)
    requires x in users && !x.isDeleted && x.username == req.username
    requires forall y :: y in users && !y.isDeleted && y.username == req.username ==> y == x
    ensures Login(users, req, h, Healthy) ==
              if ComparePassword(h, x.passwordHash, req.password) then Ok(View(x)) else Err(InvalidPassword)
  {
    var k := FirstLive(users, (y: UserRow) => y.username == req.username);
    var m :| 0 <= m < |users| && users[m] == x;
    assert k <= m;
    assert users[k] == x;
  }

  /** `UPDATE users SET is_deleted = true WHERE user_id = $1` on a healthy store. */
  function SoftDelete(users: Users, userId: string): (r: Users)
    ensures |r| == |users|
    ensures forall k :: 0 <= k < |users| && users[k].userId == userId ==> r[k] == users[k].(isDeleted := true)
    ensures forall k :: 0 <= k < |users| && users[k].userId != userId ==> r[k] == users[k]
  {
    if users == [] then []
    else
      var head := if users[0].userId == userId then users[0].(isDeleted := true) else users[0];
      [head] + SoftDelete(users[1..], userId)
  }

  /** `Logout`: soft-deletes the user row (no session is touched) and reports
      success even when the store fails. */
  function Logout(users: Users, userId: string, db: Fault): (r: Written<Option<string>>)
    ensures r.answer.None?
    ensures db.Down? ==> r.users == users
    ensures db.Healthy? ==> r.users == SoftDelete(users, userId)
  {
    if db.Down? then Written(users, None) else Written(SoftDelete(users, userId), None)
  }

  /** `DeleteSession`: hard-deletes the session row and reports success even when the store fails. */
  function DeleteSession(sessions: SessionTable.Table, sessionId: string, db: Fault): (r: (SessionTable.Table, Option<string>))
    ensures r.1.None?
    ensures db.Down? ==> r.0 == sessions
    ensures db.Healthy? ==> forall x :: x in r.0 <==> x in sessions && x.sessionId != sessionId
    ensures SessionTable.UniqueIds(sessions) ==> SessionTable.UniqueIds(r.0)
  {
    if db.Down? then (sessions, None) else (SessionTable.DeleteBySessionId(sessions, sessionId), None)
  }

  /** After logging out, no lookup and no login can return that user any more. */
  lemma LogoutHidesUser(users: Users, userId: string, logoutDb: Fault, db: Fault, h: Hasher,
                        id: string, username: string, email: string, password: string)
    requires logoutDb.Healthy?
    ensures var after := Logout(users, userId, logoutDb).users;
            && (GetUserById(after, id, db).Ok? ==> GetUserById(after, id, db).value.userId != userId)
            && (GetUserByUsername(after, username, db).Ok? ==> GetUserByUsername(after, username, db).value.userId != userId)
            && (GetUserByEmail(after, email, db).Ok? ==> GetUserByEmail(after, email, db).value.userId != userId)
            && (Login(after, LoginUser(username, password), h, db).Ok? ==>
                  Login(after, LoginUser(username, password), h, db).value.userId != userId)
  {
    var after := SoftDelete(users, userId);
    assert forall x :: x in after && x.userId == userId ==> x.isDeleted;
  }

  /** Logging a user out by id makes a lookup by that id fail with "not found". */
  lemma LogoutMakesIdNotFound(users: Users, userId: string)
    ensures GetUserById(Logout(users, userId, Healthy).users, userId, Healthy) == Err(NotFound)
  {
    var after := SoftDelete(users, userId);
    assert forall x :: x in after && x.userId == userId ==> x.isDeleted;
  }
}
