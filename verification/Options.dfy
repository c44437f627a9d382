/** An optional value, used by several of the modules. */
module Options {
  datatype Option<+T> = None | Some(value: T)
}
