/** The value a lookup may fail to give. */
module Options {
  datatype Option<+T> = None | Some(value: T)
}
