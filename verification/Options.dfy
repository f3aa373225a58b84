/** A value or nothing, for the null pointers of the sources. */
module Options {
  datatype Option<+T> = None | Some(value: T)
}
