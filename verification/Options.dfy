/** An optional value, for the source's null pointers and "not found" returns. */
module Options {
  datatype Option<T> = None | Some(value: T)
}
