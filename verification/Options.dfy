/** A value that may be missing: a NULL pointer, a session that was not created. */
module Options {
  datatype Option<+T> = None | Some(value: T)
}
