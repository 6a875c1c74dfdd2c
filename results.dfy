/** Option and Result values used for the source's `None` text fields and for its
    failing assertions and exceptions, which the model turns into error results. */
module Results {

  datatype Option<T> = None | Some(value: T)

  datatype Result<T, E> = Ok(value: T) | Err(error: E)
}
