/** Values that may be absent, as a null pointer is. */
module Options {

  datatype Option<+T> = None | Some(value: T)
}
