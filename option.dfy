/** The optional value used where the source has `null`, `undefined` or nothing pending. */
module Options {

  datatype Option<+T> = None | Some(value: T)
}
