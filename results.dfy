/** Option and Result values used where the Rust code returns an `Option` or panics. */
module Results {

  datatype Option<+T> = None | Some(value: T)

  /** A stage that can fail: the lexer and the parser return one of these instead of panicking. */
  datatype Result<+T, +E> = Ok(value: T) | Err(error: E)
}
