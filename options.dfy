/** An optional value: a request field that may be absent, a stored column that may be NULL. */
module Options {

  datatype Option<+T> = None | Some(value: T)
}
