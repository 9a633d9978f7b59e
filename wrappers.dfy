/** Optional values (C# nullable references and `decimal?`) and the outcome of an
    operation that either returns a value or throws. */
module Wrappers {

  datatype Option<+T> = None | Some(value: T)

  datatype Result<+R, +E> = Success(value: R) | Failure(error: E)
}
