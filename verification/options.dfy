/** The optional value used where the model leaves an input's meaning open. */
module Options {

  datatype Option<+T> = None | Some(value: T)
}
