/** A value that may be missing: the model's rendering of a computation that raises. */
module Optional {
  datatype Option<T> = None | Some(value: T)
}
