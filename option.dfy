/** A value that may be absent: a `null` attribute, a request not sent. */
module Optional {
  datatype Option<T> = None | Some(value: T)
}
