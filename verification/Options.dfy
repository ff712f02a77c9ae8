/** Python's `None` and the value that may be there instead. */
module Options {
  datatype Option<+T> = None | Some(value: T)
}
