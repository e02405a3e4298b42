/** Failure-compatible values for the engine's error paths.

    The engine reports caller-side mistakes by raising exceptions; here every
    such exception becomes an `Err` carrying the exception's kind, so that a
    contract can speak about the error path as well as the happy path. */
module Results {

  /** The exception kinds the engine raises (or that Python raises for it;
      `UnboundLocalError` is a local variable read before any assignment). */
  datatype Error =
    | ValueError
    | RuntimeError
    | IndexError
    | KeyError
    | AssertionError
    | ZeroDivisionError
    | UnboundLocalError

  /** An optional value, standing for a result that may be `None`. */
  datatype Option<+T> = None | Some(value: T)

  /** Either a value or the exception that a call raised. */
  datatype Result<+T> = Ok(value: T) | Err(error: Error) {

    predicate IsFailure() {
      Err?
    }

    function PropagateFailure<U>(): Result<U>
      requires Err?
    {
      Err(error)
    }

    function Extract(): T
      requires Ok?
    {
      value
    }
  }
}
