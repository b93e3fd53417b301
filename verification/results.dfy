/** Optional values and the success-or-raised outcome of a Python call. */
module Results {

  /** Python's `None`-or-value. */
  datatype Option<+T> = None | Some(value: T)

  /** A call either returns a value or raises an exception `E`. */
  datatype Result<+T, +E> = Success(value: T) | Failure(error: E)
}
