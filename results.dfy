/** The two small wrapper datatypes the model uses for values that may be missing and for
    operations that fail where the Python code raises an exception. */
module Results {
  datatype Option<T> = None | Some(value: T)

  datatype Result<T, E> = Ok(value: T) | Err(error: E)
}
