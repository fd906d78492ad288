/** Nullable columns and pointers. */
module Options {
  datatype Option<+T> = None | Some(value: T)
}
