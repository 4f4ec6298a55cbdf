/** An optional value: Go's "nil or a value" results. */
module Maybe {

  datatype Option<T> = None | Some(value: T)
}
