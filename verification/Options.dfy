/** An optional value, for results that may be missing or undefined. */
module Options {
  datatype Option<+T> = None | Some(value: T)
}
