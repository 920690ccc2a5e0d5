/** The optional value that stands for Python's `None`. */
module Options {
  datatype Option<+T> = None | Some(value: T)
}
