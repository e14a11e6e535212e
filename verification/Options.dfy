/** What the source returns as a value or nil. */
module Options {
  datatype Option<T> = None | Some(value: T)
}
