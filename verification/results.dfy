/** Optional values and success/failure results, used where the Go code
    returns nil or an `error`. */
module Results {

  datatype Option<T> = None | Some(value: T)

  datatype Result<T, E> = Success(value: T) | Failure(error: E)
}
