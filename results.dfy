/** The outcome of a step of the script that can abort the run, and optional values. */
module Results {
  datatype Result<+T, +E> = Ok(value: T) | Err(error: E)

  datatype Option<+T> = None | Some(value: T)
}
