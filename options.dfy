/** The optional value used where the Java code returns or tests for null. */
module Options {
  datatype Option<+T> = None | Some(value: T)
}
