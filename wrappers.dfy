/** Optional values and results with an error case, used for JavaScript's
    `null`/`undefined` results and for the loader's thrown errors. */
module Wrappers {

  datatype Option<+T> = None | Some(value: T)

  datatype Result<+R, +E> = Success(value: R) | Failure(error: E)
}
