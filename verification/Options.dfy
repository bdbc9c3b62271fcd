/** A value that may be missing: what the program leaves undefined, or reports by throwing. */
module Options {
  datatype Option<T> = None | Some(value: T)
}
