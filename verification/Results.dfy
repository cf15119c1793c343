/** Absent values, and the outcome of operations that can fail; the text of an error is not modelled. */
module Results {

  datatype Option<+T> = None | Some(value: T)

  datatype Result<+T> = Ok(value: T) | Err
}
