/** The optional value used for parses that may fail and lookups that may miss. */
module Options {
  datatype Option<+T> = None | Some(value: T)
}
