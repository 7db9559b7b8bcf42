/** Failure-carrying wrappers shared by the decoder and the asset loaders. */
module Results {

  /** An optional value. The absent case is called `Nothing` because `None`
      is already the name of a tile pixel class. */
  datatype Option<+T> = Nothing | Some(value: T)

  /** The outcome of a computation that either succeeds with a value or
      fails with an error (a panic in the modelled code). */
  datatype Result<+T, +E> = Ok(value: T) | Err(error: E)
}
