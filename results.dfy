/** Outcomes of operations that raise in the modelled program. */
module Results {

  datatype Option<+T> = None | Some(value: T)

  /** Either a value or the error that the modelled program raises instead. */
  datatype Result<+T, +E> = Ok(value: T) | Err(error: E)
}
