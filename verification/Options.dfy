/** Optional values, for Go's `v, ok` results and nil pointers. */
module Options {
  datatype Option<+T> = None | Some(value: T)
}
