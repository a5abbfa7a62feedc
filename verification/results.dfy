/** Values used across the model in place of the source's `undefined`
    values and thrown errors. */
module Results {

  /** A value that may be absent, as `undefined` is in the source. */
  datatype Option<+T> = None | Some(value: T)

  /** Either a computed value or the error that stopped the computation. */
  datatype Result<+R, +E> = Success(value: R) | Failure(error: E)
}
