/** A value that may be missing: the null pointers and the unset fields of the C code. */
module Options {
  datatype Option<T> = None | Some(value: T)
}
