/**
 The decoder's closed error taxonomy and the failure-compatible `Result` type
 every decoding step returns. Each `Error` constructor stands for one of the
 exception classes the decoder raises; an internal logic error (the source's
 `_fail`) has no constructor because it is proved unreachable.
 */
module Errors {

  datatype Error =
    | InsufficientData   // the buffer ended before the declared byte count was read
    | ReservedCode       // the unassigned tag 0xc1
    | InvalidString      // a str payload that is not UTF-8 and passthrough is off
    | UnhashableKey      // a map key that cannot serve as a dictionary key
    | DuplicateKey       // a map key equal to one already in the same map
    | NotImplemented     // a registered extension class without `unpackb`

  /** Either a decoded value or the error that aborted decoding; usable with `:-`. */
  datatype Result<+T> = Ok(value: T) | Err(error: Error) {

    predicate IsFailure() {
      Err?
    }

    function PropagateFailure<U>(): Result<U>
      requires Err?
    {
      Err(error)
    }

    function Extract(): T
      requires Ok?
    {
      value
    }
  }
}
