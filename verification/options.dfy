/** Python's `Optional[...]`: a value or `None`. */
module Options {

  datatype Option<+T> = None | Some(value: T)
}
