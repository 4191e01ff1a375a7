/** A value that may be missing: a nil pointer in Go. */
module Options {
  datatype Option<+T> = None | Some(value: T)
}
