/** Option and Result datatypes used for the error paths of both scripts:
    a value that may be missing (a NaN cell, a skipped line) and an
    operation that may abort (a date that does not parse, an empty frame). */
module Results {

  datatype Option<+T> = None | Some(value: T)

  datatype Result<+T, +E> = Ok(value: T) | Err(error: E)
}
