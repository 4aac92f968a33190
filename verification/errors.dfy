/** The exceptions the buffer's operations can throw, and the result shapes
    that carry them. */
module Outcomes {

  /** One tag per exception class a buffer operation can end in. */
  datatype Error =
    | IllegalArgument      // IllegalArgumentException
    | Unsupported          // UnsupportedOperationException
    | UseAfterFree         // thrown by the base class's ensureNotFreed()
    | NegativeArraySize    // NegativeArraySizeException from `new double[n]`
    | IndexOutOfBounds     // ArrayIndexOutOfBoundsException / IndexOutOfBoundsException
    | NullPointer          // NullPointerException: the host array field is still null
    | EndOfStream          // EOFException while reading a serialised buffer
    | StreamCorrupted      // a count where an element was expected, or the reverse

  /** A Java reference that may be null. */
  datatype Option<+T> = None | Some(value: T)

  /** A value-returning call: its result, or the exception it threw. */
  datatype Result<+T> = Ok(value: T) | Err(error: Error) {

    predicate IsFailure() {
      Err?
    }

    function PropagateFailure<U>(): Result<U>
      requires Err?
    {
      Err(error)
    }

    function Extract(): T
      requires Ok?
    {
      value
    }
  }

  /** A `void` call: it returned normally, or threw. */
  datatype Outcome = Pass | Fail(error: Error)
}
