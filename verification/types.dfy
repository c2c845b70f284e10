/**
 Shared vocabulary of the model: optional values, results, the error kinds
 the Python code raises, and Python's truthiness and SQL's COALESCE.
 */
module Types {

  /** A nullable value: Python's `None` or an SQL `NULL` is `None`. */
  datatype Option<+T> = None | Some(value: T)

  /** The outcome of an operation that may raise. */
  datatype Result<+T, +E> = Success(value: T) | Failure(error: E) {

    predicate IsFailure() {
      Failure?
    }

    function PropagateFailure<U>(): Result<U, E>
      requires Failure?
    {
      Failure(error)
    }

    function Extract(): T
      requires Success?
    {
      value
    }
  }

  /** The exceptions the modelled code raises or lets escape. */
  datatype Error =
    | MissingKey          // RuntimeError: no key in the registry or in ENCRYPTION_KEY
    | InvalidKey          // the cipher rejects the key text it was handed
    | Undecryptable       // ValueError: no registry key authenticates the token
    | RegistryUnavailable // the registry query helper raised
    | ConnectionFailed    // the database connection could not be opened
    | BadKeyIdText        // the INT column ENCRYPTION_KEY_ID refuses a non-numeric text
    | DuplicateUser       // the insert collides with an existing M_STOCK_USER_ID

  /** Python truthiness of an optional string: `None` and `""` are falsy. */
  predicate Truthy(s: Option<string>) {
    s.Some? && s.value != ""
  }

  /** SQL `COALESCE(update, current)`: a `NULL` update keeps the current value. */
  function Coalesce<T>(update: Option<T>, current: Option<T>): (r: Option<T>)
    ensures update.Some? ==> r == update
    ensures update.None? ==> r == current
  {
    if update.Some? then update else current
  }
}
