/** Options for the values the service may or may not receive. */
module Options {
  datatype Option<+T> = None | Some(value: T)
}
