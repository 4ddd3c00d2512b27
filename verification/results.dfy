/** Optional values and outcomes that can fail, for the places where the
    source reads a possibly-missing attribute or raises an error. */
module Results {

  datatype Option<T> = None | Some(value: T)

  datatype Result<T, E> = Success(value: T) | Failure(error: E)
}
