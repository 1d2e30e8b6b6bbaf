/** Values that may be missing: NULL pointers, nil objects. */
module Options {
  datatype Option<T> = None | Some(value: T)
}
