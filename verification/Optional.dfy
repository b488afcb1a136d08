/** Python's `False`-or-value returns, as an explicit option. */
module Optional {

  datatype Option<+T> = None | Some(value: T)
}
