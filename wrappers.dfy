/** Option and Result values, and the failures the modelled core can raise. */
module Wrappers {

  /** A Java reference that may be null. */
  datatype Option<+T> = None | Some(value: T)

  /** The outcome of an operation that may throw. */
  datatype Result<+R, +E> = Success(value: R) | Failure(error: E)

  /** The ways the modelled core can fail outward. */
  datatype Error =
    | EmptyVersion  // IllegalArgumentException("Version can't be empty") from Version.valueOf
    | OutOfFuel     // the depth bound of the model ran out (the source has no such bound)
}
