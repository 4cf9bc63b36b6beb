/** Option and Result: the error paths of the application (an exception that
    ends the request, a value that is absent) as values. */
module Results {

  datatype Option<+T> = None | Some(value: T)

  datatype Result<+R, +E> = Success(value: R) | Failure(error: E)
}
