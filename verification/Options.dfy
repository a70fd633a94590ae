/** A value that may be absent: Python's `None`, a failed match, a raised exception. */
module Options {
  datatype Option<T> = None | Some(value: T)
}
