/** Optional values: a stand-in for the source's nullable pointers and handles. */
module Optional {

  datatype Option<+T> = None | Some(value: T)
}
