/** The optional value used for the source's "not found" results (a null pointer, a false flag). */
module Options {

  datatype Option<T> = None | Some(value: T)
}
