/** Failure-carrying datatypes shared by every module of the model.
    A Python exception that escapes an operation becomes a `Failure`
    carrying the exception's kind. */
module Wrappers {

  datatype Option<+T> = None | Some(value: T)

  /** The Python exceptions the modelled code can raise or propagate. */
  datatype Exception =
    | KeyError(key: string)   // a dict lookup of a missing key
    | IndexError              // a list index out of range
    | TypeError               // None used where a string is needed
    | AttributeError          // a string method called on None
    | RequestFailed           // a remote call failed or answered malformed JSON
    | RuntimeError            // StopIteration raised inside a generator
    | UnboundLocalError       // a local variable read before any assignment

  datatype Result<+T> = Success(value: T) | Failure(error: Exception) {
    predicate IsFailure() {
      Failure?
    }

    function PropagateFailure<U>(): Result<U>
      requires Failure?
    {
      Failure(error)
    }

    function Extract(): T
      requires Success?
    {
      value
    }
  }
}
