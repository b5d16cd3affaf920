# Session-backed authentication of vazzuniversebackend, in Dafny

This project models the authentication core of the vazzuniversebackend Go service and proves properties of the model. The core covers:

- the JWT gate that every protected request passes (`AuthMiddleware`);
- the `sessions` table and its repository;
- the `users` table with its repository, service and HTTP handlers;
- the error and reply envelopes those handlers write;
- the small utilities they rely on: random ids, the client address, and the database health report.

Everything is pure functions over immutable values:

- A database table is a sequence of rows. Every SQL statement is a function from the table to its answer, or to the table afterwards.
- Whether a store call succeeds is a `Fault` parameter (`Healthy` or `Down(reason)`), given once per call.
- The clock is an integer parameter in Unix seconds, one per `time.Now()` reading that matters.
- The random source is the sequence of bytes it delivers.
- The JWT library is a `Tokens.Codec` value holding two functions: signing and parsing.
  - What the model assumes of it is the predicate `Tokens.Sound`: a signed token parses back to what was signed.
  - `Lifecycle.OneTokenCodecIsSound` shows that a concrete codec meets this assumption.
- bcrypt is a `UserErrors.Hasher` value holding two functions: hashing and comparing.

Modules follow the program's files:

| module | file of the service |
|---|---|
| `Results`, `GoInts`, `GoStrings` | Go language and standard-library behaviour the core relies on: options, results, int64 wrap-around, truncating division, `strings.TrimSpace`, `strconv.Itoa` |
| `Response` | pkg/utils/response/response.go, resposeJson.go |
| `RandomId` | pkg/utils/generate/randomID.go |
| `ClientIp` | pkg/utils/utils/clientId.go |
| `DbHealth` | pkg/config/db.go (`Health`) |
| `SessionTable` | services/auth/sessions/query.go |
| `SessionRepo` | services/auth/sessions/repositories.go |
| `Tokens`, `Middleware` | pkg/server/middlewares/middlewares.go |
| `UserErrors` | services/users/error.go |
| `UserRepo` | services/users/repositories.go |
| `UserService` | services/users/service.go |
| `UserController` | services/users/controller.go |
| `Lifecycle` | end-to-end runs across the modules above |

Where the documentation and the code disagree, the model follows the code:

- The gate's final rejection has the message "Authentication required" and the details "No valid tokens found".
- The JWT library already rejects a token whose expiry second has been reached. The model reads the clock once for the library and for the gate's own `now > exp` test, and under that reading the test can never fire (`Tokens.ExplicitExpiryCheckIsDead`).
- `ClearSessions` passes its 500's code and message the other way round: the code is the sentence and the message is `INTERNAL_SERVER_ERROR`. The model keeps that order.
- Logout soft-deletes the user row, not the session rows. A logged-out user can no longer be found or log in.

## Model

| member | source | states |
|---|---|---|
| Response.NewResponseError | pkg/utils/response/response.go:18-25 | status, code and message are the arguments; details, path and request id are empty |
| Response.WithDetails | pkg/utils/response/response.go:28-31 | only the details change, to the argument; every other field is kept |
| Response.WithPath | pkg/utils/response/response.go:34-37 | only the path changes |
| Response.WithRequestId | pkg/utils/response/response.go:40-43 | only the request id changes |
| Response.SecondSetterWins | pkg/utils/response/response.go:28-43 | calling the same setter twice keeps only the second value |
| Response.SettersCommute | pkg/utils/response/response.go:28-43 | setters on different fields give the same error in either order |
| Response.Success | pkg/utils/response/resposeJson.go:8-13 | the given status, `success = true`, and the data unchanged |
| Response.Error | pkg/utils/response/resposeJson.go:15-22 | the error's own status, `success = false`, and its code, message and details copied verbatim |
| Response.TotalPages | pkg/utils/response/resposeJson.go:33 | the page count evaluated with int64 wrap-around and truncating division stays an int64; a zero limit is excluded because Go panics on it |
| Response.TotalPagesExact | pkg/utils/response/resposeJson.go:33 | without overflow, the 64-bit page count equals the exact `(total + limit - 1) / limit` |
| Response.TotalPagesIsCeiling | pkg/utils/response/resposeJson.go:33 | for total ≥ 0, limit > 0 and no overflow: pages × limit ≥ total; (pages − 1) × limit < total when total > 0; 0 pages when total = 0 |
| Response.Pagination | pkg/utils/response/resposeJson.go:25-36 | a success reply echoing total, page and limit; its page count is the ceiling of total / limit in the non-overflowing range |
| GoInts.Quot | pkg/config/db.go:91-95 | Go's truncating integer division: the remainder is smaller than the divisor in absolute value, and the quotient takes the sign of a / b |
| GoStrings.TrimSpace | pkg/utils/utils/clientId.go:12 | the result is the input with its leading and trailing Unicode white space removed: a slice of the input that neither starts nor ends with white space, between all-white-space margins |
| GoStrings.ItoaRoundTrip | pkg/config/db.go:75-81 | the decimal rendering of an integer parses back to that integer |
| GoStrings.ItoaInjective | pkg/config/db.go:75-81 | distinct integers render to distinct strings |
| RandomId.HexEncode | pkg/utils/generate/randomID.go:28 | n bytes give 2n characters, all in 0-9a-f |
| RandomId.HexRoundTrip | pkg/utils/generate/randomID.go:28 | decoding the hex encoding gives back the bytes |
| RandomId.HexInjective | pkg/utils/generate/randomID.go:28 | distinct byte strings have distinct encodings |
| RandomId.EffectiveAmount | pkg/utils/generate/randomID.go:15-18 | an amount ≤ 0 becomes 16; a positive amount is kept |
| RandomId.GenerateRandomId | pkg/utils/generate/randomID.go:13-36 | no id (the panic) exactly when the random source cannot fill the buffer; without a prefix, 2 × amount lower-hex characters that decode to the random bytes; with a non-empty prefix, `prefix + "-"` followed by that hex |
| ClientIp.GetClientIp | pkg/utils/utils/clientId.go:9-26 | a non-empty X-Forwarded-For decides alone: the answer is its text before the first comma with exactly the white space at both ends cut off (`TrimmedFirstField`: the cut-off parts are all white space, the answer neither starts nor ends with it); otherwise a non-empty X-Real-IP verbatim; otherwise RemoteAddr before its first colon; otherwise RemoteAddr unchanged |
| ClientIp.TrimmedFirstFieldUnique | pkg/utils/utils/clientId.go:11-12 | at most one string is the trimmed first field of a header, so the X-Forwarded-For answer is fully determined |
| ClientIp.ForwardedChainGivesFirstHop | pkg/utils/utils/clientId.go:11-12 | `" 10.0.0.9 , 10.0.0.1"` gives `10.0.0.9`, whatever X-Real-IP and RemoteAddr hold |
| ClientIp.ForwardedForDecidesAlone | pkg/utils/utils/clientId.go:11-13 | with X-Forwarded-For set, X-Real-IP and RemoteAddr make no difference |
| ClientIp.BlankForwardedFieldGivesEmptyAddress | pkg/utils/utils/clientId.go:11-12 | `" ,10.0.0.9"` gives the empty address, without falling back to the other headers |
| DbHealth.MessageIsLastFiring | pkg/config/db.go:83-97 | the message chosen by the four overwriting rules is the message of the last rule that fires, or "It's healthy" when none fires |
| DbHealth.Counters | pkg/config/db.go:75-81 | exactly the six counter keys, each holding a decimal rendering that parses back to its statistic |
| DbHealth.KeysNameTheirStatistics | pkg/config/db.go:71-81 | each counter key names its own statistic, and "status" and "message" are not counter keys |
| DbHealth.Health | pkg/config/db.go:63-81 | a failed ping ends the process with "db down: …"; otherwise the report has the counter keys plus "status" ("up") and "message" (the chosen message), and each counter entry parses back to its statistic |
| DbHealth.QuietPoolIsHealthy | pkg/config/db.go:72-97 | with no threshold crossed, the message stays "It's healthy" |
| DbHealth.LifetimeRuleOverrides | pkg/config/db.go:95-97 | the max-lifetime rule overrides every other rule |
| DbHealth.HeavyLoadShowsOnlyAlone | pkg/config/db.go:83-97 | the heavy-load message shows exactly when more than 40 connections are open and no later rule fires |
| DbHealth.HalvingTruncates | pkg/config/db.go:91-95 | halving truncates, so with 0 or 1 open connections any positive max-lifetime-closed count fires |
| SessionTable.Insert | services/auth/sessions/query.go:4-32 | the row is appended and returned exactly as written; a duplicate session id inserts nothing; the primary-key invariant is kept |
| SessionTable.SelectValidity | services/auth/sessions/query.go:34-49 | a row matches only if both its session id and its user id equal the arguments; none is found exactly when no row matches both |
| SessionTable.SelectBySessionId | services/auth/sessions/query.go:51-66 | the row with that id; none exactly when the id is not stored |
| SessionTable.SelectByAccessToken | services/auth/sessions/query.go:102-117 | a row selected by access token alone |
| SessionTable.SelectByUserId | services/auth/sessions/query.go:68-84 | exactly that user's rows, each as often as stored, ordered newest `created_at` first |
| SessionTable.SortNewestFirst | services/auth/sessions/query.go:83 | the output is a permutation of the input, sorted by `created_at` descending |
| SessionTable.InsertNewestFirst | services/auth/sessions/query.go:83 | inserting into a newest-first sequence keeps it newest-first and adds exactly the one row |
| SessionTable.DeleteBySessionId | services/auth/sessions/query.go:86-89 | exactly the rows with other ids remain, and the id is gone |
| SessionTable.DeleteByUserId | services/auth/sessions/query.go:91-94 | exactly the rows of other users remain |
| SessionTable.TouchBySessionId | services/auth/sessions/query.go:96-100 | only the row with that id changes, and only `last_activity` and `updated_at`, both to the same value |
| SessionTable.DeleteIdempotent | services/auth/sessions/query.go:86-89 | deleting a session twice leaves the same table as deleting it once |
| SessionTable.DeleteKeepsOtherRowsInOrder | services/auth/sessions/query.go:86-89 | deleting an absent id leaves the table unchanged, rows in their original order |
| SessionTable.DeleteByUserIdempotent | services/auth/sessions/query.go:91-94 | revoking a user's sessions twice is the same as once |
| SessionTable.TouchIdempotent | services/auth/sessions/query.go:96-100 | touching twice with the same clock reading is the same as once |
| SessionTable.TouchKeepsKeys | services/auth/sessions/query.go:96-100 | the activity update keeps the set of session ids and the primary-key invariant |
| SessionTable.InsertThenSelect | services/auth/sessions/query.go:4-66 | a freshly inserted session is what a lookup by its id returns |
| SessionRepo.NewRow | services/auth/sessions/repositories.go:26 | the stored row carries the request's nine fields, followed by the two clock readings for `created_at` and `updated_at` |
| SessionRepo.Create | services/auth/sessions/repositories.go:23-45 | any failure, a duplicate key included, is INVALID_SESSIONS and leaves the table unchanged; it fails exactly when the store is down or the id exists; on success the returned row is the one appended |
| SessionRepo.CheckValidityUser | services/auth/sessions/repositories.go:47-68 | succeeds exactly when the store is healthy and a row matches both ids; every failure is INVALID_SESSIONS |
| SessionRepo.GetBySessionId | services/auth/sessions/repositories.go:70-91 | succeeds exactly when the store is healthy and the id is stored; every failure is INVALID_SESSIONS |
| SessionRepo.GetByUserId | services/auth/sessions/repositories.go:93-127 | fails (INVALID_SESSIONS) exactly when the store does; otherwise exactly the user's rows, newest first, possibly none |
| SessionRepo.InvalidateSession | services/auth/sessions/repositories.go:129-132 | the store's error is passed through unchanged and deletes nothing; otherwise exactly that session is gone and deleting nothing is success |
| SessionRepo.InvalidateAllUserSessions | services/auth/sessions/repositories.go:134-138 | the store's error is passed through; otherwise exactly the user's rows are deleted and other users' rows remain |
| SessionRepo.UpdateLastActivity | services/auth/sessions/repositories.go:140-144 | one clock reading is written to both timestamp columns of that session's row only; session ids and the primary-key invariant are kept |
| SessionRepo.GetByAccessToken | services/auth/sessions/repositories.go:146-167 | a row is returned exactly when the store is healthy and some row holds the token, and it is a row holding it; otherwise the raw store error is passed through, or `sql.ErrNoRows` on a healthy store, instead of INVALID_SESSIONS |
| SessionRepo.CreatedSessionFoundByToken | services/auth/sessions/repositories.go:146-167 | after `Create` (repositories.go:25-45), a session stored under a token no other row holds is the row the lookup by that token returns |
| SessionRepo.InvalidateSessionIdempotent | services/auth/sessions/repositories.go:129-132 | invalidating again succeeds and changes nothing more |
| SessionRepo.InvalidateSessionSparesOthers | services/auth/sessions/repositories.go:129-132 | every row with another session id survives an invalidation |
| SessionRepo.InvalidatedSessionIsGone | services/auth/sessions/repositories.go:70-91 | after an invalidation, any lookup of that session fails |
| Tokens.ValidateToken | pkg/server/middlewares/middlewares.go:19-46 | the empty token is refused first; a token is accepted exactly when it parses, uses an HMAC algorithm, has a valid signature, and its expiry lies after now with its issue time not after now; the claims returned are the token's; a non-HMAC token is refused for its algorithm |
| Tokens.ExplicitExpiryCheckIsDead | pkg/server/middlewares/middlewares.go:41-43 | the gate's own "token expired" error can never be returned |
| Tokens.TokenClaims | pkg/server/middlewares/middlewares.go:58-68 | the four identity fields are copied from the user; the token is issued now and expires `hours` × 3600 seconds later when the duration fits in int64 |
| Tokens.GenerateToken | pkg/server/middlewares/middlewares.go:48-77 | a nil user, then a non-positive duration, are refused; otherwise the token is the HS256 signature of the claims, or a signing error |
| Tokens.GenerateThenValidate | pkg/server/middlewares/middlewares.go:19-77 | a generated token validates from its issue second up to its expiry, and gives back the user's identity |
| Tokens.GeneratedTokenExpires | pkg/server/middlewares/middlewares.go:19-77 | a generated token no longer validates once its expiry second is reached |
| Tokens.DurationOverflowGivesPastExpiry | pkg/server/middlewares/middlewares.go:64 | one hour beyond the int64 duration limit, the expiry wraps into the past |
| Middleware.ExtractToken | pkg/server/middlewares/middlewares.go:96-110 | a `Bearer ` header gives its remainder; otherwise the `auth_token` cookie; otherwise the empty token |
| Middleware.BearerHeaderIgnoresCookie | pkg/server/middlewares/middlewares.go:99-100 | with a bearer header, the cookie makes no difference |
| Middleware.PrincipalOf | pkg/server/middlewares/middlewares.go:144-149 | the principal carries the claims' four identity fields and zero values elsewhere |
| Middleware.Authenticate | pkg/server/middlewares/middlewares.go:94-164 | accept exactly when the token is present and valid, names a stored session, and that session is active; a token that does not validate is refused before the store is read; a failed lookup is refused as "invalid or expired" and an inactive session as "invalidated"; only an accepted request writes, only through the activity update, and that update's failure is ignored |
| Middleware.OutcomeIgnoresTouchAndRowDetails | pkg/server/middlewares/middlewares.go:117-152 | the outcome depends only on which sessions exist and which are active: not on the update's result, and not on the row's owner or expiry |
| Middleware.GetUserFromContext | pkg/server/middlewares/middlewares.go:83-93 | nothing stored, a value of another type, or the principal, are told apart |
| Middleware.ContextAfter | pkg/server/middlewares/middlewares.go:150 | after an accept, handlers read back exactly the attached principal |
| Middleware.RevokedSessionRejected | pkg/server/middlewares/middlewares.go:117-126 | after its session is invalidated, a token is refused although it still validates |
| Middleware.RevokeAllRejectsListedSessions | pkg/server/middlewares/middlewares.go:117-126 | after "log out everywhere", every session in the user's listing is refused |
| Middleware.ExpiredTokenRejectedBeforeStore | pkg/server/middlewares/middlewares.go:113-163 | an expired token is refused as "no valid token" and the table is untouched, even if its session is active |
| UserErrors.CodesDistinct | services/users/error.go:10-33 | the fifteen error codes are pairwise distinct |
| UserErrors.ErrUserNotFoundError | services/users/error.go:35-41 | 404 USER_NOT_FOUND with the username embedded verbatim in the details |
| UserErrors.ErrInvalidPasswordError | services/users/error.go:43-49 | 401 INVALID_PASSWORD |
| UserErrors.ErrUnauthorizedError | services/users/error.go:51-57 | 401 UNAUTHORIZED |
| UserErrors.ErrPaymentFailedError | services/users/error.go:59-65 | 402 PAYMENT_FAILED |
| UserErrors.ErrInvalidAmountError | services/users/error.go:67-73 | 400 INVALID_AMOUNT |
| UserErrors.ErrInvalidCredentialsError | services/users/error.go:75-81 | 401 INVALID_CREDENTIALS with empty details |
| UserErrors.ErrInvalidPaymentCodeError | services/users/error.go:83-89 | 400 INVALID_PAYMENT_CODE with the code embedded verbatim |
| UserErrors.ErrInsufficientBalanceError | services/users/error.go:91-97 | 400 INSUFFICIENT_FUNDS with empty details |
| UserErrors.ErrUsernameTakenError | services/users/error.go:99-105 | 409 USERNAME_TAKEN with the username embedded verbatim |
| UserErrors.ErrEmailTakenError | services/users/error.go:107-113 | 409 EMAIL_TAKEN with the email embedded verbatim |
| UserErrors.ErrInternalServerError | services/users/error.go:115-121 | 500 INTERNAL_SERVER_ERROR whose details are the error's text |
| UserErrors.UsernameTakenInjective | services/users/error.go:99-105 | two usernames giving the same error are the same username |
| UserRepo.View | services/users/repositories.go:84 | the selected columns are every column except the password: id, full name, username, email, role, balance, the deleted flag and both timestamps are the row's |
| UserRepo.Create | services/users/repositories.go:27-80 | a random source failure panics; a hash or store failure is a 500 whose details are the error text and writes nothing; success appends one row with a 20-character lower-hex id, the request's fields, the hashed password, `is_deleted = false`, and `created_at = updated_at = now` |
| UserRepo.GetUserById | services/users/repositories.go:82-99 | the answer is a stored live row with that id, seen through `View`; "not found" exactly when the store is healthy and every row with that id is deleted; a failed store's error is passed through, and a healthy store never gives one |
| UserRepo.GetUserByUsername | services/users/repositories.go:101-118 | the answer is a stored live row with that username, seen through `View`; "not found" exactly when the store is healthy and every row with that username is deleted; a failed store's error is passed through, and a healthy store never gives one |
| UserRepo.GetUserByEmail | services/users/repositories.go:120-137 | the answer is a stored live row with that email, seen through `View`; "not found" exactly when the store is healthy and every row with that email is deleted; a failed store's error is passed through, and a healthy store never gives one |
| UserRepo.Login | services/users/repositories.go:139-176 | INVALID_CREDENTIALS exactly when the store is healthy and no live user has that name; INVALID_PASSWORD only for a live user whose hash rejects the password; a user is returned only if the comparison holds; a store error is passed through, and a healthy store never gives one; for the row the select returns, login succeeds with that row exactly when its hash accepts the password, and fails with INVALID_PASSWORD otherwise |
| UserRepo.LoginDecidedByPassword | services/users/repositories.go:139-176 | when one live user holds the name, a password that verifies logs that user in and one that does not answers INVALID_PASSWORD |
| UserRepo.SoftDelete | services/users/repositories.go:179-183 | `is_deleted` is set on the rows with that user id, and every other row is unchanged |
| UserRepo.Logout | services/users/repositories.go:178-191 | always answers nil; a failed store changes nothing; otherwise the user row is soft-deleted |
| UserRepo.DeleteSession | services/users/repositories.go:193-205 | always answers nil; otherwise exactly the session's row is hard-deleted |
| UserRepo.LogoutHidesUser | services/users/repositories.go:86-181 | after logging out, no lookup by id, username or email and no login returns that user |
| UserRepo.LogoutMakesIdNotFound | services/users/repositories.go:82-99 | after logging out, the lookup by that id answers "not found" |
| UserService.Screen | services/users/service.go:24-50 | the check order: empty username (409 USERNAME_TAKEN), then empty email (409 EMAIL_TAKEN), then an existing username (409 USERNAME_TAKEN), then a username lookup error that is not treated as "no such user" (500 with its text), then an existing email (409 EMAIL_TAKEN), then an email lookup error that is not treated as "no such user" (500 with its text); no error exactly when both fields are filled and both lookups fail with errors treated as "no such user" |
| UserService.CreateAsWritten | services/users/service.go:23-53 | the insert runs only when every check passes |
| UserService.CreateAsWrittenNeverInserts | services/users/service.go:31-52 | as written, every registration fails and the table is unchanged |
| UserService.FirstRegistrationFailsAsWritten | services/users/service.go:31-36 | as written, the first registration on an empty table answers 500 "not found" |
| UserService.Create | services/users/service.go:23-53 | with "not found" read as "no such user": the same checks in the same order; a live holder of the username is USERNAME_TAKEN; with the username free, a live holder of the email is EMAIL_TAKEN and a failed email lookup a 500 with its text; registration succeeds exactly when both fields are filled, neither is held by a live user, every store call succeeds and the id can be generated; no username or email is ever held by two live users |
| UserService.TakenEmailIsRefused | services/users/service.go:42-50 | with the username free, an email held by a live user is refused as 409 EMAIL_TAKEN and nothing is written |
| UserService.CreatedUserIsFound | services/users/service.go:23-53 | a new user is what the following lookups by username and by email return |
| UserService.CreatedUserCanLogIn | services/users/service.go:52 | with a hasher that verifies its own hashes, a new user can log in with the registration password |
| UserService.GetUserById | services/users/service.go:55-57 | exactly the repository's answer: a stored live row with that id, "not found", or the store's error |
| UserController.Validate | services/users/controller.go:25-58 | a malformed body is 400 INVALID_INPUT with the binding error as details; otherwise 400 MISSING_FIELD for an empty username, then an empty email, then a nil or empty password |
| UserController.ServiceRequest | services/users/controller.go:60-67 | role "Member" and balance 0 are forced, and the other fields are copied |
| UserController.CreateUser | services/users/controller.go:23-76 | the service (the corrected `UserService.Create`, see Findings) runs only after validation; 201 with the new user, or the service's error verbatim, or a panic exactly when the service panics |
| UserController.RoleAndBalanceAreForced | services/users/controller.go:60-67 | the role and balance in the body make no difference |
| UserController.Login | services/users/controller.go:106-168 | 400 for a malformed body or empty fields; 200 exactly when the login service succeeds, setting cookie `auth_token` with the token and max-age 86400, header `Bearer <token>`, and returning the token and session id; a failure sets no cookie |
| UserController.LoginFailuresLookAlike | services/users/controller.go:141-150 | every failure of the login service gives the same 401 reply |
| UserController.UnknownUserAndWrongPasswordLookAlike | services/users/controller.go:141-150 | an unknown username and a wrong password give the same reply, although the repository tells them apart |
| UserController.EmptyCredentialsSkipService | services/users/controller.go:123-131 | an empty username or password is refused with 400 whatever the login service would do |
| UserController.GetProfile | services/users/controller.go:78-104 | no principal gives 401 UNAUTHORIZED; a failed lookup by the principal's username gives 401 USER_NOT_FOUND; otherwise 200 with that live user |
| UserController.Logout | services/users/controller.go:170-187 | no principal gives 401; otherwise always 200, the user soft-deleted, the current session deleted, and the cookie and header cleared |
| UserController.ClearSessions | services/users/controller.go:189-216 | no principal gives 401; a store failure gives 500 with code and message swapped; otherwise 200 and exactly the principal's sessions are gone |
| Lifecycle.OneTokenCodecIsSound | pkg/server/middlewares/middlewares.go:25-30 | the library assumption is satisfiable |
| Lifecycle.StoreAcceptRevoke | pkg/server/middlewares/middlewares.go:94-152 | a generated token whose session is stored is accepted for its user; once the session is invalidated, the same request is refused as a missing session |
| Lifecycle.LogoutLocksOutCurrentRequest | services/users/controller.go:170-187 | after a logout through the handler, the request that logged out is refused at any later time |
| Lifecycle.ClearSessionsLocksOutOwnSession | services/users/controller.go:189-216 | after "log out everywhere", the current request is refused when its session row belongs to the token's user |

## Left out

- Process-level behaviour is not modelled:
  - Gin and HTTP plumbing: JSON binding, JSON rendering, the `SameSite` attribute, cookie escaping, response-time headers, route registration, logging.
  - The discarded `NewResponseError` values built inside the gate have no effect and are omitted.
- Database connections are not modelled:
  - `NewDatabase`, `Close` and the ping itself are I/O; the ping's outcome is a parameter.
  - The main/replica split is replaced by a single store.
  - `log.Fatalf` after a failed ping is the `ProcessExit` outcome.
- The JWT wire format and the HMAC-SHA256 signature are not modelled; they are the `Codec` functions.
  - The signing secret is part of the codec.
  - Tokens without an `exp` claim are not considered: the gate dereferences that claim unguarded.
- bcrypt is not modelled; it is the `Hasher` functions. `ComparePassword` is true exactly when the hasher accepts the pair.
- `DbHealth.Health`: the `wait_duration` entry (a `time.Duration` rendering) is not modelled.
- `Tokens.ExplicitExpiryCheckIsDead` relies on one clock reading. The library's validation and the gate's `time.Now()` at middlewares.go:41 are really two readings. If more than a second passes between them, the gate's own "token expired" error can be returned.
- `Tokens.TokenClaims`: the two separate `time.Now()` readings are one parameter. Sub-second precision of the JWT dates is not modelled.
- `Response.ResponseError`: the creation timestamp is dropped, because no reply renders it.
- `SessionTable.Session`: `last_activity` and `expires_at` are nullable (`*time.Time`) in the Go row type but plain times here. Every row the model writes comes from `CreateSession`, whose two times are non-null, so a NULL in a row written elsewhere is not modelled.
- `SessionTable.Insert`: `session_id` is taken to be the primary key. The table definition is not part of this model.
- `UserRepo.Create`: the inserted `password` column and the `password_hash` column that login reads are treated as the same column.
- `UserController.Login`: the login service (`LoginWithSession`) is not part of this model. It is a parameter that returns the user with the new session's token, id and expiry, or an error.
- `UserController.Login`: gin's `ClientIP` and the user agent are parameters.
- `UserController.CreateUser` calls the corrected `UserService.Create` (see Findings). Through the service as written (`UserService.CreateAsWritten`) the handler never answers 201: every registration gets the 409 or 500 that `CreateAsWrittenNeverInserts` describes.
- `UserController.CreateUser`: the request type `ReqData` is not part of this model. Its fields are taken from the service request the handler builds from it.
- Context-only files are not modelled:
  - environment loading (pkg/config/env.go);
  - the logger (pkg/utils/response/logger.go);
  - the session service, which is a one-line delegation identified with `SessionRepo`;
  - the empty session controller;
  - `main`.

## Findings

| source | as written | input that shows it | evidently intended | confidence | as-written member | corrected member |
|---|---|---|---|---|---|---|
| services/users/service.go:31-50 | `errors.Is(err, errors.New("not found"))` compares against a freshly allocated error, so it never matches. Every lookup error, the repository's own "not found" included, becomes a 500. Every registration therefore fails: the username is either found (409) or not found (500). | registering `alice` / `alice@example.com` on an empty users table answers 500 INTERNAL_SERVER_ERROR with details "not found" (`UserService.FirstRegistrationFailsAsWritten`); no input reaches the insert (`UserService.CreateAsWrittenNeverInserts`) | a username or email that is not in use lets the registration through to the insert | not executed | UserService.CreateAsWritten | UserService.Create |
