module Options {
  /** A pointer or a result that may be absent. */
  datatype Option<+T> = None | Some(value: T)
}
