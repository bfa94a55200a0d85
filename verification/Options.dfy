/** A value that a JSON record may lack. */
module Options {
  datatype Option<+T> = None | Some(value: T)
}
