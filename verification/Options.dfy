/** Optional values, for the program's nil pointers and error returns. */
module Options {
  datatype Option<+T> = None | Some(value: T)
}
