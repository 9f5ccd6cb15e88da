/** A value or its absence, for the program's nil results and error returns. */
module Options {
  datatype Option<+T> = None | Some(value: T)
}
