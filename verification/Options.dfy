// A value that may be missing.
module Options {
  datatype Option<+T> = Some(value: T) | None
}
