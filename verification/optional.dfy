/** The absent-or-present value the model uses where the source returns null
    or reports a failed operation with a boolean. */
module Optional {

  datatype Option<+T> = None | Some(value: T)

}
