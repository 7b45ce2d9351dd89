/** Option, shared by the modules that model nullable values. */
module Options {
  datatype Option<+T> = None | Some(value: T)
}
