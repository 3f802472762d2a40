/** A value that may be missing: a null pointer, an exception, an absent entry. */
module Options {

  datatype Option<+T> = None | Some(value: T)
}
