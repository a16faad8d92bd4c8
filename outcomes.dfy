/**
 * The results and error kinds shared by both dictionary revisions.
 * Java exceptions become `Failure` / `Fail` values carrying an `Error`.
 */
module Outcomes {

  datatype Option<+T> = None | Some(value: T)

  /** The exceptions the core can raise. */
  datatype Error =
    | TermExists(term: string)         // TermExistsException(term)
    | TermNotExists(term: string)      // TermNotExistsException(term)
    | IllegalArgument(message: string) // IllegalArgumentException(message)
    | IndexOutOfBounds                 // String- or ArrayIndexOutOfBoundsException

  /** A value, or the exception that replaced it; usable with `:-`. */
  datatype Result<+T> = Success(value: T) | Failure(error: Error) {
    predicate IsFailure() {
      Failure?
    }

    function PropagateFailure<U>(): Result<U>
      requires Failure?
    {
      Failure(error)
    }

    function Extract(): T
      requires Success?
    {
      value
    }
  }

  /** The outcome of a `void` operation that may throw. */
  datatype Outcome = Pass | Fail(error: Error)

  const NullArgument: string := "null argument"
  const InvalidFormat: string := "Invalid file format"
}
