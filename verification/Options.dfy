/** An answer that may be missing: where the C code would stop with an assertion or a fault. */
module Options {
  datatype Option<+T> = None | Some(value: T)
}
