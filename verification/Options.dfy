/** A value that may be missing: a null pointer, a file that cannot be opened, a free mutex. */
module Options {
  datatype Option<T> = None | Some(value: T)
}
