/** An optional value: a result that the C code returns as a possibly null address. */
module Options {
  datatype Option<T> = None | Some(value: T)
}
