/** A value that may be missing: a NULL pointer argument, a refused result. */
module Options {
  datatype Option<+T> = None | Some(value: T)
}
