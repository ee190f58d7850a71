/** A value or nothing, for the source's `ok` results and nil pointers. */
module Options {
  datatype Option<+T> = None | Some(value: T)
}
