// Results that may be missing: null pointers, misses and refusals.
module Options {
  datatype Option<T> = None | Some(value: T)
}
