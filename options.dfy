/** The optional value used for the C functions that answer -1 or NULL. */
module Options {
  datatype Option<T> = None | Some(value: T)
}
