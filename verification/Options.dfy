/** The result of a call that may revert or of a read that may be absent. */
module Options {
  datatype Option<T> = None | Some(value: T)
}
