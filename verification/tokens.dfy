/** The token codec: `GenerateToken` and `ValidateToken`. The JWT library's encoding
    and HMAC signature are not modelled; they are the two functions of a `Codec`
    value (a fixed secret is built into it), and what the model needs of them,
    that parsing a signed token gives back what was signed, is the predicate `Sound`. */
module Tokens {

  import opened Results
  import opened GoInts

  /** The `alg` header values the JWT library knows. */
  datatype Alg =
    | HS256 | HS384 | HS512
    | RS256 | RS384 | RS512
    | PS256 | PS384 | PS512
    | ES256 | ES384 | ES512
    | EdDSA | NoSignature

  /** `token.Method.(*jwt.SigningMethodHMAC)` succeeds exactly for the HMAC family. */
  predicate IsHmac(a: Alg)
  {
    a.HS256? || a.HS384? || a.HS512?
  }

  /** `JWTClaims`: four identity fields plus the registered claims used here.
      Times are Unix seconds. */
  datatype Claims = Claims(
    userId: string,
    email: string,
    username: string,
    sessionId: string,
    issuedAt: int,
    expiresAt: int,
    issuer: string)

  /** Go's zero `time.Time` (1 January of year 1) in Unix seconds. */
  const ZeroTime: int := -62135596800

  /** The request principal, `middlewares.UserData`. */
  datatype UserData = UserData(
    userId: string,
    fullname: Option<string>,
    username: string,
    email: string,
    password: Option<string>,
    role: string,
    isDeleted: bool,
    balance: int,
    createdAt: int,
    sessionId: string,
    updatedAt: Option<int>)

  /** What the library's parser makes of a token string before checking time claims:
      not a JWT at all, or its header algorithm, its claims and whether the signature
      checks out under the secret. */
  datatype Decoded = Malformed | Decoded(alg: Alg, claims: Claims, signatureOk: bool)

  /** Signing (`None` when signing fails) and parsing, under the process-wide secret. */
  datatype Codec = Codec(sign: (Alg, Claims) -> Option<string>, parse: string -> Decoded)

  /** What the model assumes of the library: a signed token is a non-empty string
      that parses back to its algorithm and claims with a valid signature. */
  ghost predicate Sound(codec: Codec)
  {
    forall a, c :: codec.sign(a, c).Some? ==>
      codec.sign(a, c).value != "" && codec.parse(codec.sign(a, c).value) == Decoded(a, c, true)
  }

  /** Why the library's `ParseWithClaims` refused a token. */
  datatype ParseFailure =
    | NotAToken
    | UnexpectedSigningMethod(alg: Alg)
    | SignatureInvalid
    | ClaimsRejected(expired: bool, usedBeforeIssued: bool)

  datatype TokenError =
    | EmptyToken
    | ParseError(reason: ParseFailure)
    | TokenExpired
    | NilUser
    | NonPositiveDuration
    | SigningFailed

  /** The library's own claim validation (golang-jwt v4 `RegisteredClaims.Valid`) at
      whole seconds: `exp` must lie strictly after `now`, `iat` not after `now`. */
  predicate LibraryAccepts(c: Claims, now: int)
  {
    now < c.expiresAt && c.issuedAt <= now
  }

  /** `ValidateToken(token)` read at clock `now`. */
  function ValidateToken(codec: Codec, token: string, now: int): (r: Result<Claims, TokenError>)
    ensures token == "" ==> r == Err(EmptyToken)
    ensures r.Ok? <==>
              && token != ""
              && codec.parse(token).Decoded?
              && IsHmac(codec.parse(token).alg)
              && codec.parse(token).signatureOk
              && LibraryAccepts(codec.parse(token).claims, now)
    ensures r.Ok? ==> r.value == codec.parse(token).claims
    ensures token != "" && codec.parse(token).Decoded? && !IsHmac(codec.parse(token).alg) ==>
              r == Err(ParseError(UnexpectedSigningMethod(codec.parse(token).alg)))
    ensures token != "" && codec.parse(token).Decoded? && now >= codec.parse(token).claims.expiresAt ==> r.Err?
    ensures token != "" && codec.parse(token).Decoded? && IsHmac(codec.parse(token).alg)
            && now >= codec.parse(token).claims.expiresAt ==>
              r.Err? && r.error.ParseError? && r.error.reason.ClaimsRejected? && r.error.reason.expired
  {
    if token == "" then Err(EmptyToken)
    else match codec.parse(token)
      case Malformed => Err(ParseError(NotAToken))
      case Decoded(alg, claims, signatureOk) =>
        if !IsHmac(alg) then Err(ParseError(UnexpectedSigningMethod(alg)))
        else if !LibraryAccepts(claims, now) then
          Err(ParseError(ClaimsRejected(now >= claims.expiresAt, claims.issuedAt > now)))
        else if !signatureOk then Err(ParseError(SignatureInvalid))
        else if now > claims.expiresAt then Err(TokenExpired)
        else Ok(claims)
  }

  /** With one clock reading serving both checks, the explicit `now > exp` test can
      never fire: the library has already refused every token whose expiry second is
      not in the future. */
  lemma ExplicitExpiryCheckIsDead(codec: Codec, token: string, now: int)
    ensures ValidateToken(codec, token, now) != Err(TokenExpired)
  {
  }

  const NanosPerSecond: int := 1_000_000_000
  const NanosPerHour: int := 3600 * NanosPerSecond

  /** The largest `hours` for which `time.Duration(hours) * time.Hour` fits in int64. */
  const MaxTokenHours: int := 2562047

  /** `time.Now().Add(time.Duration(hours) * time.Hour)` in whole seconds: the
      nanosecond product wraps around in int64, and the seconds are floored. */
  function ExpiryAfter(now: int, hours: int): int
  {
    now + Wrap64(hours * NanosPerHour) / NanosPerSecond
  }

  /** The claim set `GenerateToken` signs. */
  function TokenClaims(user: UserData, hours: int, now: int, issuer: string): (c: Claims)
    ensures c.userId == user.userId && c.email == user.email
    ensures c.username == user.username && c.sessionId == user.sessionId
    ensures c.issuedAt == now && c.issuer == issuer
    ensures 0 < hours <= MaxTokenHours ==> c.expiresAt == now + hours * 3600
  {
    if 0 < hours <= MaxTokenHours then
      assert IsInt64(hours * NanosPerHour);
      assert Wrap64(hours * NanosPerHour) / NanosPerSecond == hours * 3600;
      Claims(user.userId, user.email, user.username, user.sessionId, now, ExpiryAfter(now, hours), issuer)
    else
      Claims(user.userId, user.email, user.username, user.sessionId, now, ExpiryAfter(now, hours), issuer)
  }

  /** `GenerateToken(user, hours)` with the clock at `now` and issuer `issuer`. */
  function GenerateToken(codec: Codec, user: Option<UserData>, hours: int, now: int, issuer: string): (r: Result<string, TokenError>)
    ensures user.None? ==> r == Err(NilUser)
    ensures user.Some? && hours <= 0 ==> r == Err(NonPositiveDuration)
    ensures r.Ok? ==> user.Some? && hours > 0
    ensures r.Ok? ==> codec.sign(HS256, TokenClaims(user.value, hours, now, issuer)) == Some(r.value)
    ensures user.Some? && hours > 0 && codec.sign(HS256, TokenClaims(user.value, hours, now, issuer)).None? ==>
              r == Err(SigningFailed)
  {
    if user.None? then Err(NilUser)
    else if hours <= 0 then Err(NonPositiveDuration)
    else match codec.sign(HS256, TokenClaims(user.value, hours, now, issuer))
      case None => Err(SigningFailed)
      case Some(token) => Ok(token)
  }

  /** Round trip: a freshly generated token, validated at any moment from its issue
      second up to (not including) its expiry second, yields the user's identity. */
  lemma GenerateThenValidate(codec: Codec, user: UserData, hours: int, issuedAt: int, issuer: string, now: int)
    requires Sound(codec)
    requires GenerateToken(codec, Some(user), hours, issuedAt, issuer).Ok?
    requires issuedAt <= now < TokenClaims(user, hours, issuedAt, issuer).expiresAt
    ensures var token := GenerateToken(codec, Some(user), hours, issuedAt, issuer).value;
            var v := ValidateToken(codec, token, now);
            v.Ok? && v.value.userId == user.userId && v.value.email == user.email
            && v.value.username == user.username && v.value.sessionId == user.sessionId
  {
    var c := TokenClaims(user, hours, issuedAt, issuer);
    assert codec.sign(HS256, c).Some?;
  }

  /** A generated token stops validating once its expiry second is reached. */
  lemma GeneratedTokenExpires(codec: Codec, user: UserData, hours: int, issuedAt: int, issuer: string, now: int)
    requires Sound(codec)
    requires GenerateToken(codec, Some(user), hours, issuedAt, issuer).Ok?
    requires now >= TokenClaims(user, hours, issuedAt, issuer).expiresAt
    ensures ValidateToken(codec, GenerateToken(codec, Some(user), hours, issuedAt, issuer).value, now).Err?
  {
    var c := TokenClaims(user, hours, issuedAt, issuer);
    assert codec.sign(HS256, c).Some?;
  }

  /** One hour past the int64 limit the duration wraps negative: the token is born expired. */
  lemma DurationOverflowGivesPastExpiry(user: UserData, now: int, issuer: string)
    ensures TokenClaims(user, MaxTokenHours + 1, now, issuer).expiresAt < now
  {
    assert (MaxTokenHours + 1) * NanosPerHour == 9223372800000000000;
    assert Wrap64(9223372800000000000) == 9223372800000000000 - TwoTo64;
  }
}
