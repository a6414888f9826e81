/** The conventional optional value: a Go pointer that may be nil. */
module Options {
  datatype Option<+T> = None | Some(value: T)
}
