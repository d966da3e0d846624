/** The result of a search or of an external call that may produce nothing. */
module Options {
  datatype Option<T> = None | Some(value: T)
}
