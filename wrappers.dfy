/** Optional values and results with an error, used wherever the script either finds
    something or fails with an exception that ends the run. */
module Wrappers {

  datatype Option<+T> = None | Some(value: T)

  datatype Result<+T, +E> = Success(value: T) | Failure(error: E)
}
