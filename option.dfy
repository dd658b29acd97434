/** Optional values, used where the source reads a property that may be `undefined`. */
module Optional {
  datatype Option<+T> = None | Some(value: T)
}
