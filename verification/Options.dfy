/** Pointers that may be NULL, as values. */
module Options {
  datatype Option<+T> = None | Some(value: T)
}
