/** The optional value used by the parsers and lookups of the model. */
module Options {
  datatype Option<+T> = None | Some(value: T)
}
