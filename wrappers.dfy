/** Failure-carrying values shared by every module of the model. */
module Wrappers {

  /** A value that may be absent (Python's `None`). */
  datatype Option<+T> = None | Some(value: T)

  /** The outcome of an operation that either returns a value or raises. */
  datatype Result<+T, +E> = Success(value: T) | Failure(error: E)
}

/** The exceptions the identicon core raises, by Python exception class. */
module Errors {

  /** Why the core itself raised a `ValueError`. */
  datatype Reason =
    | InvalidHexLiteral                               // int(chunk, 16) rejected a two-character chunk
    | MissingGenerator                                // Identicon built with generator=None
    | InsufficientEntropy(provided: int, required: int) // entropy gate refused the last preprocessor

  datatype Error =
    | ValueError(reason: Reason)
    | TypeError          // an int compared with None
    | IndexError         // a list indexed past its end
    | ZeroDivisionError  // `//` or `%` by zero
}
