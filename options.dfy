/** The optional value used wherever the widget has "null", "undefined" or "no pending timer". */
module Options {
  datatype Option<+T> = None | Some(value: T)
}
