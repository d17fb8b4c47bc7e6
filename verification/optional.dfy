/** The absent-or-present value used throughout the model. */
module Optional {

  datatype Option<+T> = None | Some(value: T)

}
