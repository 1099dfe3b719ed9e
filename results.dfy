/** Option and Result values used for Python's implicit failures: a missing
    dictionary key (KeyError) and a Decimal division by zero. */
module Results {

  datatype Option<+T> = None | Some(value: T)

  datatype Result<+R, +E> = Success(value: R) | Failure(error: E)
}
