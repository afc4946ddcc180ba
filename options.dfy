/** An optional value: an element that may be absent, a row that may not be found. */
module Options {
  datatype Option<+T> = None | Some(value: T)
}
