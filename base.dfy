/** Small shared types. */
module Base {

  datatype Option<T> = None | Some(value: T)
}
