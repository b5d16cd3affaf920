/** Failure-carrying values shared by every module of the model: Go's
    `(value, error)` pairs and nil-able pointers become `Result` and `Option`. */
module Results {

  /** A nil-able pointer or an optional field: `None` is Go's `nil`. */
  datatype Option<+T> = None | Some(value: T)
  {
    function GetOr(default: T): T
    {
      match this
      case Some(v) => v
      case None => default
    }
  }

  /** The `(value, err)` pair of a Go function, with exactly one side present. */
  datatype Result<+T, +E> = Ok(value: T) | Err(error: E)

  /** What one round-trip to the database did: answered, or failed with the driver's error text. */
  datatype Fault = Healthy | Down(reason: string)
}
