/** Shared helper types. */
module Common {
  /** A value or nothing: stands for a C pointer that may be NULL. */
  datatype Option<T> = None | Some(value: T)
}
