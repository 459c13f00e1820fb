/** Optional values: a nullable column, a missing form field, a failed parse. */
module Options {
  datatype Option<+T> = None | Some(value: T)
}
