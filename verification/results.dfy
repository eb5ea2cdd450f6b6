/** Option and Result: the success/failure carriers used throughout the model.
    A Python exception raised by the script becomes an `Err` value here. */
module Results {

  datatype Option<+T> = None | Some(value: T)

  datatype Result<+T, +E> = Ok(value: T) | Err(error: E)
}
