/** An optional value, used by the decoding helpers that state round-trip properties. */
module Options {
  datatype Option<T> = None | Some(value: T)
}
