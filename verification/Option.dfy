/** A value that may be missing, where the servers use a null pointer or a failed stream. */
module Option {
  datatype Option<+T> = None | Some(value: T)
}
