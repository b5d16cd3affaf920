/** `UserService.Create`: registration guarded by uniqueness checks on username and
    email. The code as written cannot register anyone (see `CreateAsWritten`); the
    rest of the model uses `Create`, where a "not found" lookup lets the request through. */
module UserService {

  import opened Results
  import opened Response
  import opened UserErrors
  import RandomId
  import opened UserRepo

  /** `errors.Is(err, errors.New("not found"))`. The target is a freshly allocated
      error value that no error chain can contain, and neither it nor the repository's
      errors define an `Is` method, so the comparison is by identity and never holds. */
  predicate IsFreshNotFound(e: LookupError)
  {
    false
  }

  /** How the store answers each of the three statements `Create` may run. */
  datatype Stores = Stores(usernameLookup: Fault, emailLookup: Fault, insert: Fault)

  /** The four checks `UserService.Create` makes before inserting, in the order service.go makes them, for a given
      reading of the lookup errors: `fallsThrough(e)` says whether a lookup error `e`
      counts as "no such user". `None` means every check passed. */
  function Screen(users: Users, req: CreateUser, st: Stores, fallsThrough: LookupError -> bool): (r: Option<ResponseError>)
    ensures req.username == "" ==> r == Some(ErrUsernameTakenError(req.username))
    ensures req.username != "" && req.email == "" ==> r == Some(ErrEmailTakenError(req.email))
    ensures req.username != "" && req.email != "" && GetUserByUsername(users, req.username, st.usernameLookup).Ok? ==>
              r == Some(ErrUsernameTakenError(req.username))
    ensures req.username != "" && req.email != "" && GetUserByUsername(users, req.username, st.usernameLookup).Err?
            && !fallsThrough(GetUserByUsername(users, req.username, st.usernameLookup).error) ==>
              r == Some(ErrInternalServerError(GetUserByUsername(users, req.username, st.usernameLookup).error.Text()))
    // the email step runs only once the username lookup has fallen through
    ensures req.username != "" && req.email != "" && GetUserByUsername(users, req.username, st.usernameLookup).Err?
            && fallsThrough(GetUserByUsername(users, req.username, st.usernameLookup).error)
            && GetUserByEmail(users, req.email, st.emailLookup).Ok? ==>
              r == Some(ErrEmailTakenError(req.email))
    ensures req.username != "" && req.email != "" && GetUserByUsername(users, req.username, st.usernameLookup).Err?
            && fallsThrough(GetUserByUsername(users, req.username, st.usernameLookup).error)
            && GetUserByEmail(users, req.email, st.emailLookup).Err?
            && !fallsThrough(GetUserByEmail(users, req.email, st.emailLookup).error) ==>
              r == Some(ErrInternalServerError(GetUserByEmail(users, req.email, st.emailLookup).error.Text()))
    ensures r.None? <==>
              && req.username != "" && req.email != ""
              && GetUserByUsername(users, req.username, st.usernameLookup).Err?
              && fallsThrough(GetUserByUsername(users, req.username, st.usernameLookup).error)
              && GetUserByEmail(users, req.email, st.emailLookup).Err?
              && fallsThrough(GetUserByEmail(users, req.email, st.emailLookup).error)
  {
    if req.username == "" then Some(ErrUsernameTakenError(req.username))
    else if req.email == "" then Some(ErrEmailTakenError(req.email))
    else match GetUserByUsername(users, req.username, st.usernameLookup)
      case Ok(_) => Some(ErrUsernameTakenError(req.username))
      case Err(e) =>
        if !fallsThrough(e) then Some(ErrInternalServerError(e.Text()))
        else match GetUserByEmail(users, req.email, st.emailLookup)
          case Ok(_) => Some(ErrEmailTakenError(req.email))
          case Err(e2) =>
            if !fallsThrough(e2) then Some(ErrInternalServerError(e2.Text()))
            else None
  }

  /** `Create` exactly as written: a lookup error counts as "no such user" only through `IsFreshNotFound`. */
  function CreateAsWritten(users: Users, req: CreateUser, entropy: seq<RandomId.byte>, h: Hasher, now: int, st: Stores): (r: Written<CreateOutcome>)
    requires req.password.Some?
    ensures r.answer.Created? ==> Screen(users, req, st, IsFreshNotFound).None?
  {
    match Screen(users, req, st, IsFreshNotFound)
    case Some(e) => Written(users, Failed(e))
    case None => UserRepo.Create(users, req, entropy, h, now, st.insert)
  }

  /** As written, no request ever reaches the insert: the username lookup either finds
      a user (USERNAME_TAKEN) or fails, and every failure, "not found" included,
      becomes a 500. */
  lemma CreateAsWrittenNeverInserts(users: Users, req: CreateUser, entropy: seq<RandomId.byte>, h: Hasher, now: int, st: Stores)
    requires req.password.Some?
    ensures var r := CreateAsWritten(users, req, entropy, h, now, st);
            r.users == users && r.answer.Failed?
  {
  }

  /** The smallest witness: registering "alice" on an empty table answers 500 with the
      details "not found". */
  lemma FirstRegistrationFailsAsWritten(entropy: seq<RandomId.byte>, h: Hasher, now: int)
    ensures var req := CreateUser(None, "alice", "alice@example.com", Some("secret"), "Member", 0);
            CreateAsWritten([], req, entropy, h, now, Stores(Healthy, Healthy, Healthy)).answer
              == Failed(ErrInternalServerError("not found"))
  {
  }

  /** The repository's own "not found" is the one lookup error that means "no such user". */
  predicate IsNotFound(e: LookupError)
  {
    e == NotFound
  }

  /** No username, and no email, belongs to two live users. */
  ghost predicate LiveUnique(users: Users)
  {
    forall i, j :: 0 <= i < j < |users| && !users[i].isDeleted && !users[j].isDeleted ==>
      users[i].username != users[j].username && users[i].email != users[j].email
  }

  /** `Create` as evidently intended: a username or email that is not in use lets the
      request through to the insert, and any other lookup error is still a 500. */
  function Create(users: Users, req: CreateUser, entropy: seq<RandomId.byte>, h: Hasher, now: int, st: Stores): (r: Written<CreateOutcome>)
    requires req.password.Some?
    ensures req.username == "" ==> r == Written(users, Failed(ErrUsernameTakenError("")))
    ensures req.username != "" && req.email == "" ==> r == Written(users, Failed(ErrEmailTakenError("")))
    ensures req.username != "" && GetUserByUsername(users, req.username, st.usernameLookup).Ok? ==>
              r.users == users && r.answer.Failed? && r.answer.error.code in {ErrUsernameTaken, ErrEmailTaken}
    ensures req.username != "" && req.email != "" && GetUserByUsername(users, req.username, st.usernameLookup).Ok? ==>
              r == Written(users, Failed(ErrUsernameTakenError(req.username)))
    ensures req.username != "" && req.email != "" && st.usernameLookup.Down? ==>
              r == Written(users, Failed(ErrInternalServerError(st.usernameLookup.reason)))
    // a free username moves on to the email: a live holder is EMAIL_TAKEN, a store error a 500
    ensures req.username != "" && req.email != "" && st.usernameLookup.Healthy?
            && (forall x :: x in users && x.username == req.username ==> x.isDeleted)
            && GetUserByEmail(users, req.email, st.emailLookup).Ok? ==>
              r == Written(users, Failed(ErrEmailTakenError(req.email)))
    ensures req.username != "" && req.email != "" && st.usernameLookup.Healthy?
            && (forall x :: x in users && x.username == req.username ==> x.isDeleted)
            && st.emailLookup.Down? ==>
              r == Written(users, Failed(ErrInternalServerError(st.emailLookup.reason)))
    // registration succeeds exactly when both fields are filled, neither is in use,
    // every store call succeeds and there is randomness for the id
    ensures r.answer.Created? <==>
              && req.username != "" && req.email != ""
              && st.usernameLookup.Healthy? && st.emailLookup.Healthy? && st.insert.Healthy?
              && (forall x :: x in users && x.username == req.username ==> x.isDeleted)
              && (forall x :: x in users && x.email == req.email ==> x.isDeleted)
              && |entropy| >= UserIdBytes && HashPassword(h, req.password.value).Ok?
    ensures r.answer.Created? ==> r.answer.user.username == req.username && r.answer.user.email == req.email
    ensures !r.answer.Created? ==> r.users == users
    ensures LiveUnique(users) ==> LiveUnique(r.users)
  {
    var r := match Screen(users, req, st, IsNotFound)
      case Some(e) => Written(users, Failed(e))
      case None => UserRepo.Create(users, req, entropy, h, now, st.insert);
    if r.answer.Created? then
      var row := r.users[|r.users| - 1];
      assert r.users == users + [row];
      assert forall i :: 0 <= i < |users| && !users[i].isDeleted ==> users[i].username != row.username && users[i].email != row.email;
      r
    else r
  }

  /** An email held by a live user is refused as EMAIL_TAKEN once the username is free,
      and nothing is written. */
  lemma TakenEmailIsRefused(users: Users, req: CreateUser, entropy: seq<RandomId.byte>, h: Hasher, now: int, st: Stores, x: UserRow)
    requires req.password.Some? && req.username != "" && req.email != ""
    requires st.usernameLookup.Healthy? && st.emailLookup.Healthy?
    requires forall y :: y in users && y.username == req.username ==> y.isDeleted
    requires x in users && !x.isDeleted && x.email == req.email
    ensures Create(users, req, entropy, h, now, st) == Written(users, Failed(ErrEmailTakenError(req.email)))
  {
  }

  /** A freshly registered user is what a later lookup by username or email returns. */
  lemma CreatedUserIsFound(users: Users, req: CreateUser, entropy: seq<RandomId.byte>, h: Hasher, now: int, st: Stores)
    requires req.password.Some?
    requires Create(users, req, entropy, h, now, st).answer.Created?
    ensures var r := Create(users, req, entropy, h, now, st);
            && GetUserByUsername(r.users, req.username, Healthy) == Ok(r.answer.user)
            && GetUserByEmail(r.users, req.email, Healthy) == Ok(r.answer.user)
  {
    var r := Create(users, req, entropy, h, now, st);
    var row := r.users[|r.users| - 1];
    FirstLiveOfAppended(users, row, (x: UserRow) => x.username == req.username);
    FirstLiveOfAppended(users, row, (x: UserRow) => x.email == req.email);
  }

  /** When no live row of `users` satisfies `p`, the first live match after appending
      a live row that does is that row. */
  lemma {:induction false} FirstLiveOfAppended(users: Users, row: UserRow, p: UserRow -> bool)
    requires forall x :: x in users ==> x.isDeleted || !p(x)
    requires !row.isDeleted && p(row)
    ensures FirstLive(users + [row], p) == |users|
  {
    if users != [] {
      assert (users + [row])[1..] == users[1..] + [row];
      FirstLiveOfAppended(users[1..], row, p);
    }
  }

  /** With a hasher whose hashes verify against their own passwords, a freshly
      registered user can log in with the password they registered with. */
  lemma CreatedUserCanLogIn(users: Users, req: CreateUser, entropy: seq<RandomId.byte>, h: Hasher, now: int, st: Stores)
    requires req.password.Some?
    requires HashPassword(h, req.password.value).Ok? ==>
               ComparePassword(h, HashPassword(h, req.password.value).value, req.password.value)
    requires Create(users, req, entropy, h, now, st).answer.Created?
    ensures var r := Create(users, req, entropy, h, now, st);
            Login(r.users, LoginUser(req.username, req.password.value), h, Healthy) == Ok(r.answer.user)
  {
    var r := Create(users, req, entropy, h, now, st);
    var row := r.users[|r.users| - 1];
    FirstLiveOfAppended(users, row, (x: UserRow) => x.username == req.username);
  }

  /** `GetUserByID` on the service is the repository's lookup. */
  function GetUserById(users: Users, userId: string, db: Fault): (r: Result<UserData, LookupError>)
    ensures r == UserRepo.GetUserById(users, userId, db)
    ensures r.Ok? ==> r.value.userId == userId && !r.value.isDeleted
    ensures r.Ok? ==> exists x :: x in users && !x.isDeleted && x.userId == userId && r.value == View(x)
    ensures db.Down? ==> r == Err(StoreFailure(db.reason))
    ensures r == Err(NotFound) <==> db.Healthy? && forall x :: x in users && x.userId == userId ==> x.isDeleted
  {
    UserRepo.GetUserById(users, userId, db)
  }
}
