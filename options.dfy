/** Optional values: a parsed position that may be missing, a seating that may be refused. */
module Options {

  datatype Option<+T> = None | Some(value: T)
}
