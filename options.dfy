/** The optional value used for every result that can be absent. */
module Options {
  datatype Option<T> = None | Some(value: T)
}
