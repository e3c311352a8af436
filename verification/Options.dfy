/** The nullable results of the C code: NULL pointers and failed allocations. */
module Options {
  datatype Option<+T> = None | Some(value: T)
}
