/** A value that may be absent. */
module Options {

  datatype Option<T> = None | Some(v: T)
}
