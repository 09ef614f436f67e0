/** Small wrapper types shared by both map models. */
module Common {

  /** A Java reference that may be null: `None` stands for `null`. */
  datatype Option<+T> = None | Some(value: T)

  /** The outcome of an operation that may throw instead of returning. */
  datatype Result<+T, +E> = Ok(value: T) | Err(error: E)
}
