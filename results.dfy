/** Failure-carrying values used in place of the exceptions the radar
    configuration script raises. */
module Results {

  datatype Option<+T> = None | Some(value: T)

  datatype Result<+T, +E> = Success(value: T) | Failure(error: E)
}
