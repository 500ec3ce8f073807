/** Optional values: an absent field, a missing map entry, a lookup that finds nothing. */
module Options {
  datatype Option<+T> = None | Some(value: T)
}
