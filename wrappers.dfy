/** Optional values and results with an error, as the cache's Go API uses them:
    the variadic TTL argument becomes an `Option`, a `(value, error)` pair a `Result`. */
module Wrappers {

  datatype Option<+T> = None | Some(value: T)

  datatype Result<+R, +E> = Success(value: R) | Failure(error: E)
}
