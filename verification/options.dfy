/** The optional result the source expresses with a possibly-null reference. */
module Options {

  datatype Option<+T> = None | Some(value: T)
}
