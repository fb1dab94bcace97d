/** The absent-or-present value used wherever the Java code returns `null`
    or throws a recoverable exception. */
module Options {

  datatype Option<+T> = None | Some(value: T)

}
