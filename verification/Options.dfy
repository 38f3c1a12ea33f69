/** A value or nothing, for operations that can fail. */
module Options {
  datatype Option<T> = None | Some(value: T)
}
