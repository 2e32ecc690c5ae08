/** A value that may be missing: a null pointer, or a failed computation. */
module Options {
  datatype Option<T> = None | Some(value: T)
}
