/** Option and Result: the absent patron of a lookup and the failed construction
    of a patron are values here, not null references or thrown exceptions. */
module Wrappers {

  datatype Option<+T> = None | Some(value: T)

  datatype Result<+R, +E> = Success(value: R) | Failure(error: E)
}
