/** The absent-or-present result used throughout. */
module Options {
  datatype Option<+T> = None | Some(value: T)
}
