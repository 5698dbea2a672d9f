/** A value that may be absent: what the program expresses with a NULL pointer. */
module Options {
  datatype Option<+T> = None | Some(value: T)
}
