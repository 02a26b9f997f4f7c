/** The optional value used for parses and searches that can fail. */
module Options {
  datatype Option<T> = None | Some(value: T)
}
