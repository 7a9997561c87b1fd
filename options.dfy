/** A value that may be absent: JavaScript's `null` or Python's `None`. */
module Options {
  datatype Option<T> = None | Some(value: T)
}
