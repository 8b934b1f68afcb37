module Options {
  datatype Option<+T> = None | Some(value: T)

  /** A C-style status: a value, or the negative code the function returns instead. */
  datatype Status<+T> = Ok(value: T) | Err(code: int)
}
