/** The users service's error taxonomy: its error codes, the constructors that
    pair each code with an HTTP status and message, and the password hasher. */
module UserErrors {

  import opened Results
  import opened Response

  // Auth related errors
  const ErrInvalidCredentials: ErrorCode := "INVALID_CREDENTIALS"
  const ErrUserNotFound: ErrorCode := "USER_NOT_FOUND"
  const ErrInvalidPassword: ErrorCode := "INVALID_PASSWORD"
  const ErrUsernameTaken: ErrorCode := "USERNAME_TAKEN"
  const ErrEmailTaken: ErrorCode := "EMAIL_TAKEN"
  const ErrUnauthorized: ErrorCode := "UNAUTHORIZED"
  // Payment related errors
  const ErrInvalidPaymentCode: ErrorCode := "INVALID_PAYMENT_CODE"
  const ErrInsufficientFunds: ErrorCode := "INSUFFICIENT_FUNDS"
  const ErrPaymentFailed: ErrorCode := "PAYMENT_FAILED"
  const ErrInvalidAmount: ErrorCode := "INVALID_AMOUNT"
  // Validation errors
  const ErrInvalidInput: ErrorCode := "INVALID_INPUT"
  const ErrMissingField: ErrorCode := "MISSING_FIELD"
  const ErrInvalidFormat: ErrorCode := "INVALID_FORMAT"
  // Generic errors
  const ErrInternalServer: ErrorCode := "INTERNAL_SERVER_ERROR"
  const ErrDatabaseError: ErrorCode := "DATABASE_ERROR"

  const AllCodes: seq<ErrorCode> := [
    ErrInvalidCredentials, ErrUserNotFound, ErrInvalidPassword, ErrUsernameTaken,
    ErrEmailTaken, ErrUnauthorized, ErrInvalidPaymentCode, ErrInsufficientFunds,
    ErrPaymentFailed, ErrInvalidAmount, ErrInvalidInput, ErrMissingField,
    ErrInvalidFormat, ErrInternalServer, ErrDatabaseError]

  /** No two error codes share a string, so a client can tell every error apart by code. */
  lemma CodesDistinct()
    ensures |AllCodes| == 15
    ensures forall i, j :: 0 <= i < j < |AllCodes| ==> AllCodes[i] != AllCodes[j]
  {
  }

  /** Prefix and suffix around the caller's text in the constructors that embed it. */
  const UserNotFoundPrefix: string := "No user found with username: "
  const PaymentCodePrefix: string := "The payment code "
  const PaymentCodeSuffix: string := " is invalid or has expired"
  const UsernameTakenPrefix: string := "The username "
  const UsernameTakenSuffix: string := " is already in use"
  const EmailTakenPrefix: string := "The email "
  const EmailTakenSuffix: string := " is already registered"

  /** `s` is `prefix + middle + suffix`, so `middle` is recoverable from it. */
  predicate Embeds(s: string, prefix: string, middle: string, suffix: string)
  {
    |s| == |prefix| + |middle| + |suffix|
    && s[..|prefix|] == prefix
    && s[|prefix|..|prefix| + |middle|] == middle
    && s[|prefix| + |middle|..] == suffix
  }

  function ErrUserNotFoundError(username: string): (e: ResponseError)
    ensures e.status == StatusNotFound && e.code == ErrUserNotFound && e.message == "User not found"
    ensures Embeds(e.details, UserNotFoundPrefix, username, "")
  {
    WithDetails(NewResponseError(StatusNotFound, ErrUserNotFound, "User not found"), UserNotFoundPrefix + username)
  }

  function ErrInvalidPasswordError(): (e: ResponseError)
    ensures e.status == StatusUnauthorized && e.code == ErrInvalidPassword
    ensures e.details == "The password provided is incorrect"
  {
    WithDetails(NewResponseError(StatusUnauthorized, ErrInvalidPassword, "Invalid password"),
                "The password provided is incorrect")
  }

  function ErrUnauthorizedError(): (e: ResponseError)
    ensures e.status == StatusUnauthorized && e.code == ErrUnauthorized
    ensures e.details == "You do not have permission to access this resource"
  {
    WithDetails(NewResponseError(StatusUnauthorized, ErrUnauthorized, "Unauthorized access"),
                "You do not have permission to access this resource")
  }

  function ErrPaymentFailedError(): (e: ResponseError)
    ensures e.status == StatusPaymentRequired && e.code == ErrPaymentFailed
    ensures e.details == "The payment process encountered an error"
  {
    WithDetails(NewResponseError(StatusPaymentRequired, ErrPaymentFailed, "Payment failed"),
                "The payment process encountered an error")
  }

  function ErrInvalidAmountError(): (e: ResponseError)
    ensures e.status == StatusBadRequest && e.code == ErrInvalidAmount
    ensures e.details == "The amount provided is invalid or exceeds the limit"
  {
    WithDetails(NewResponseError(StatusBadRequest, ErrInvalidAmount, "Invalid amount"),
                "The amount provided is invalid or exceeds the limit")
  }

  /** One of the two constructors that leave the details empty. */
  function ErrInvalidCredentialsError(): (e: ResponseError)
    ensures e.status == StatusUnauthorized && e.code == ErrInvalidCredentials
    ensures e.message == "Invalid username or password" && e.details == ""
  {
    NewResponseError(StatusUnauthorized, ErrInvalidCredentials, "Invalid username or password")
  }

  function ErrInvalidPaymentCodeError(paymentCode: string): (e: ResponseError)
    ensures e.status == StatusBadRequest && e.code == ErrInvalidPaymentCode
    ensures Embeds(e.details, PaymentCodePrefix, paymentCode, PaymentCodeSuffix)
  {
    WithDetails(NewResponseError(StatusBadRequest, ErrInvalidPaymentCode, "Invalid payment code"),
                PaymentCodePrefix + paymentCode + PaymentCodeSuffix)
  }

  /** The other constructor that leaves the details empty; its code is INSUFFICIENT_FUNDS. */
  function ErrInsufficientBalanceError(): (e: ResponseError)
    ensures e.status == StatusBadRequest && e.code == ErrInsufficientFunds && e.details == ""
  {
    NewResponseError(StatusBadRequest, ErrInsufficientFunds, "Insufficient balance for this operation")
  }

  function ErrUsernameTakenError(username: string): (e: ResponseError)
    ensures e.status == StatusConflict && e.code == ErrUsernameTaken && e.message == "Username already taken"
    ensures Embeds(e.details, UsernameTakenPrefix, username, UsernameTakenSuffix)
  {
    WithDetails(NewResponseError(StatusConflict, ErrUsernameTaken, "Username already taken"),
                UsernameTakenPrefix + username + UsernameTakenSuffix)
  }

  function ErrEmailTakenError(email: string): (e: ResponseError)
    ensures e.status == StatusConflict && e.code == ErrEmailTaken && e.message == "Email already registered"
    ensures Embeds(e.details, EmailTakenPrefix, email, EmailTakenSuffix)
  {
    WithDetails(NewResponseError(StatusConflict, ErrEmailTaken, "Email already registered"),
                EmailTakenPrefix + email + EmailTakenSuffix)
  }

  /** `ErrInternalServerError(err)`: a 500 whose details are `err.Error()`. */
  function ErrInternalServerError(errText: string): (e: ResponseError)
    ensures e.status == StatusInternalServerError && e.code == ErrInternalServer
    ensures e.message == "Internal server error occurred" && e.details == errText
  {
    WithDetails(NewResponseError(StatusInternalServerError, ErrInternalServer, "Internal server error occurred"), errText)
  }

  /** Text embedded between a fixed prefix and suffix can be read back, so the
      constructors that embed an argument never confuse two arguments. */
  lemma EmbedsDetermines(s: string, prefix: string, a: string, b: string, suffix: string)
    requires Embeds(s, prefix, a, suffix) && Embeds(s, prefix, b, suffix)
    ensures a == b
  {
  }

  lemma UsernameTakenInjective(a: string, b: string)
    requires ErrUsernameTakenError(a) == ErrUsernameTakenError(b)
    ensures a == b
  {
    var d := ErrUsernameTakenError(a).details;
    EmbedsDetermines(d, UsernameTakenPrefix, a, b, UsernameTakenSuffix);
  }

  // ----- bcrypt -----

  /** The password hasher (bcrypt at cost 10), a foreign library: hashing may fail
      with an error text; `matches(hash, plain)` is whether the pair verifies. */
  datatype Hasher = Hasher(hash: string -> Result<string, string>, matches: (string, string) -> bool)

  function HashPassword(h: Hasher, password: string): Result<string, string>
  {
    h.hash(password)
  }

  /** `ComparePassword(hashed, plain)`: true exactly when the hasher verifies the pair. */
  predicate ComparePassword(h: Hasher, hashed: string, plain: string)
  {
    h.matches(hashed, plain)
  }
}
