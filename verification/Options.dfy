/** A value that may be missing: Python's `None` or an absent key. */
module Options {
  datatype Option<+T> = None | Some(value: T)
}
