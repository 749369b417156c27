/** Success-or-error values, standing for the exceptions and assertion failures of the source. */
module Results {
  datatype Result<+T, +E> = Ok(value: T) | Err(error: E)

  /** A value that may be absent, such as the part after a separator that does not occur. */
  datatype Option<+T> = None | Some(value: T)
}
