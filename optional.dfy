/** Python's `None`-or-value, as used for the queued direction and the popped tail cell. */
module Optional {
  datatype Option<+T> = None | Some(value: T)
}
