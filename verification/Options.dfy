/** `Option`, for pointers that may be null and for results that may be absent. */
module Options {
  datatype Option<+T> = None | Some(value: T)
}
