/** Failure-carrying results for the operations that throw in the original code. */
module Errors {

  /**
   * The exceptions the core throws: `IllegalStateException(message)` on misuse,
   * `IndexOutOfBoundsException(message)` when a list is read past its end.
   */
  datatype Error = IllegalState(message: string) | IndexOutOfBounds(message: string)

  datatype Option<+T> = None | Some(value: T)

  /** The outcome of an operation that either returns a value or throws. */
  datatype Result<+T> = Ok(value: T) | Fail(error: Error) {

    predicate IsFailure() {
      Fail?
    }

    function PropagateFailure<U>(): Result<U>
      requires Fail?
    {
      Fail(error)
    }

    function Extract(): T
      requires Ok?
    {
      value
    }
  }
}
