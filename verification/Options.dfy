/** An optional value: a map lookup, a result that may be missing. */
module Options {
  datatype Option<+T> = None | Some(value: T)
}
