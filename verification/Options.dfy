/** A pointer that may be null, when what it points at is a value. */
module Options {
  datatype Option<+T> = None | Some(value: T)
}
