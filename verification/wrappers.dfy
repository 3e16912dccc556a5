/** Optional values and results with an error, shared by the generator and
    the game rules. */
module Wrappers {

  /** A value that may be absent: the model's stand-in for `null`. */
  datatype Option<+T> = None | Some(value: T)

  /** Either a value or the error the source would have thrown. */
  datatype Result<+R, +E> = Success(value: R) | Failure(error: E)
}
