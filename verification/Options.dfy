/** The optional value used for results the source reports as None. */
module Options {
  datatype Option<+T> = None | Some(value: T)
}
