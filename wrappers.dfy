/** The Option and Result values every module of the model uses, and the exceptions the scripts raise. */
module Wrappers {

  /** A value that may be absent: a dictionary key that is missing or null. */
  datatype Option<+T> = None | Some(value: T) {

    /** The value, or `default` when absent (Python's `dict.get(key, default)`). */
    function GetOr(default: T): T {
      match this
      case Some(v) => v
      case None => default
    }
  }

  /** The outcome of an operation that may raise instead of returning. */
  datatype Result<+R, +E> = Success(value: R) | Failure(error: E)
}

/** The run-time exceptions that abort a script before it writes its output. */
module Faults {

  datatype Fault =
    | BadUnpack        // a list unpacked into the wrong number of names (ValueError)
    | IndexOutOfRange  // a list indexed past its end (IndexError)
    | MissingKey       // a required dictionary key is absent (KeyError)
    | DivisionByZero   // ZeroDivisionError
    | NotAnInteger     // int() given text that is not a decimal integer (ValueError)
}
