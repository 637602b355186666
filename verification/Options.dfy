/** The optional values that the node state and the peer answers are made of. */
module Options {
  datatype Option<+T> = None | Some(value: T)
}
