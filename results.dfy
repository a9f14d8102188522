/** Success/failure wrappers shared by the linker and the price encoder.
    A thrown JavaScript error becomes an `Err` (or a `None`); a returned value an `Ok` (or a `Some`). */
module Results {

  datatype Option<+T> = None | Some(value: T)

  datatype Result<+T, +E> = Ok(value: T) | Err(error: E)
}
