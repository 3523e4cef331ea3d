/** What a pointer that may be NULL carries. */
module Options {
  datatype Option<T> = None | Some(value: T)
}
