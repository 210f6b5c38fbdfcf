/** The usual optional-value wrapper, standing in for a NULL pointer result. */
module Options {
  datatype Option<T> = None | Some(value: T)
}
