/**
 * The exceptions raised by the collection library, as values.
 *
 * A C# method that throws becomes a Dafny method that returns `Fail(e)` or
 * `Failure(e)` instead and, as the source does, leaves every object as it was.
 */
module Errors {

  /** The exception classes the library throws. */
  datatype Error =
    | ArgumentNull        // ArgumentNullException
    | InvalidOperation    // InvalidOperationException
    | ArgumentOutOfRange  // ArgumentOutOfRangeException
    | Argument            // ArgumentException (insufficient space in CopyTo)

  /** The outcome of an operation that returns `void` in C#. */
  datatype Outcome = Pass | Fail(error: Error)

  /** The outcome of an operation that returns a value in C#. */
  datatype Result<+R> = Success(value: R) | Failure(error: Error)
}
