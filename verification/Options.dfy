module Options {

  /** A value that may be absent: a null pointer, an empty search. */
  datatype Option<+T> = None | Some(value: T)
}
