/** The optional value used where the source returns `Option<T>`. */
module Options {

  datatype Option<+T> = None | Some(value: T)
}
