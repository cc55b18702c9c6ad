/** Failure values and the failure-compatible wrappers every other module uses. */
module Common {

  /** The exceptions the modelled code can raise. */
  datatype Error =
    | IndexOutOfBounds   // ArrayIndexOutOfBoundsException from a byte slice
    | IllegalArgument    // IllegalArgumentException from a byte slice (from > to)
    | UnknownInfix       // an infix byte that names no edge encoding
    | IllegalOperation   // Error.Transaction.ILLEGAL_OPERATION
    | MissingParent      // the parent type of a new type does not exist

  datatype Option<+T> = None | Some(value: T)

  /** A value or the exception that was thrown instead. */
  datatype Result<+T> = Ok(value: T) | Err(error: Error) {
    predicate IsFailure() { Err? }

    function PropagateFailure<U>(): Result<U>
      requires Err?
    {
      Err(error)
    }

    function Extract(): T
      requires Ok?
    {
      value
    }
  }

  /** The outcome of a `void` method that may throw. */
  datatype Outcome = Pass | Fail(error: Error)
}
