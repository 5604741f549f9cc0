/** A value that may be missing: Swift's `Optional`. */
module Optional {
  datatype Option<+T> = None | Some(value: T)
}
