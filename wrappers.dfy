/** Option and Result values, used for Python's `None` and for the exceptions the
    reader raises. Both work with `:-`. */
module Wrappers {

  datatype Option<+T> = None | Some(value: T) {
    function GetOr(default: T): T {
      match this
      case Some(v) => v
      case None => default
    }
  }

  datatype Result<+R, +E> = Success(value: R) | Failure(error: E) {
    predicate IsFailure() {
      Failure?
    }

    function PropagateFailure<U>(): Result<U, E>
      requires Failure?
    {
      Failure(error)
    }

    function Extract(): R
      requires Success?
    {
      value
    }
  }
}

/** The failures the reader can end an example with, one per Python exception it raises. */
module Errors {

  datatype ReaderError =
    | UnpackError(rule: string)   // ValueError: a catalog rule does not split into exactly two parts on " ->"
    | KeyError(rule: string)      // KeyError: a gold rule that is not in the action map
    | NotIterable                 // TypeError: iterating over a missing (None) span list
    | ConfigurationError          // raised by the constructor when entity pre-linking is off
}
