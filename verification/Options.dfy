/** The nullable results of the C code: NULL is None. */
module Options {
  datatype Option<+T> = None | Some(value: T)
}
