/** Failure-compatible result type used by every read operation of the stream.
    The original raises an exception when a read runs past the end of the buffer;
    here the same situation is the value `Err(OutOfRange)`. */
module Wrappers {

  /** The only error a binary stream reports: a read needs more bytes than remain
      between the cursor and the end of the buffer (or a string's length prefix
      is negative, which the buffer's range accessor rejects in the same way). */
  datatype Error = OutOfRange

  datatype Result<+T> = Ok(value: T) | Err(error: Error) {

    predicate IsFailure() {
      Err?
    }

    function PropagateFailure<U>(): Result<U>
      requires Err?
    {
      Err(error)
    }

    function Extract(): T
      requires Ok?
    {
      value
    }
  }
}
