/** The optional value used for nullable columns and for results that may be absent. */
module Options {
  datatype Option<+T> = None | Some(value: T)
}
