/** The failures the layout framework raises, and a failure-compatible result type. */
module Errors {

  /** One constructor per exception the framework's operations can raise. */
  datatype Error =
    | StructError       // struct.pack or struct.unpack rejected the value or the byte count
    | NotOneCharacter   // ord() was given a string whose length is not 1
    | StringTooLong     // FixedLengthString.write: the value does not leave room for the null
    | NullPointer       // Pointer.dereference on the null sentinel
    | WriteUnsupported  // ArrayIndex.write
    | NotOneByte        // fill was given something other than exactly one byte

  /** Either the value an operation returns or the exception it raises. */
  datatype Result<+T> = Ok(value: T) | Err(error: Error) {

    predicate IsFailure() {
      Err?
    }

    function PropagateFailure<U>(): Result<U>
      requires Err?
    {
      Err(error)
    }

    function Extract(): T
      requires Ok?
    {
      value
    }
  }

  /** Whether an operation that mutates the buffer step by step ran to completion. */
  datatype Outcome = Done | Raised(error: Error)

  /** The buffer an operation leaves behind together with how it ended; used where a
      failure can happen after part of the buffer was already overwritten. */
  datatype Effect<+B> = Effect(after: B, outcome: Outcome)
}
