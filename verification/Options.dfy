/** A value that may be absent: a pointer or function that may be null. */
module Options {
  datatype Option<+T> = None | Some(value: T)
}
