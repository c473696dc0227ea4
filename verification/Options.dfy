/** The optional value that stands for a null pointer or a missing part. */
module Options {
  datatype Option<+T> = None | Some(value: T)
}
