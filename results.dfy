/** Option and Result values: the model's stand-in for JavaScript's `null`
    returns (a regular expression that does not match, `NaN` from a number
    parse) and for thrown exceptions. */
module Results {

  datatype Option<+T> = None | Some(value: T)

  datatype Result<+T, +E> = Success(value: T) | Failure(error: E)
}
