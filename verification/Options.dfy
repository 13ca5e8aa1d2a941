/** The conventional optional value, in place of Go's nil pointers and `ok` results. */
module Options {
  datatype Option<+T> = None | Some(value: T)
}
