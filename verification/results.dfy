/** Success or a typed error: the model of a Go panic or a C early `return NULL`. */
module Results {

  datatype Result<+T, +E> = Ok(value: T) | Err(error: E)

  datatype Option<+T> = None | Some(value: T)
}
