/** Failure-compatible return types: a transaction either commits a new state or fails with an error. */
module Wrappers {

  /** The value of a step that can fail; usable with `:-`. */
  datatype Result<+T, +E> = Success(value: T) | Failure(error: E) {

    predicate IsFailure() {
      Failure?
    }

    function PropagateFailure<U>(): Result<U, E>
      requires Failure?
    {
      Failure(error)
    }

    function Extract(): T
      requires Success?
    {
      value
    }
  }

  /** The outcome of an instruction that returns no value: Anchor's `Result<()>`. */
  datatype Outcome<+E> = Pass | Fail(error: E)
}
