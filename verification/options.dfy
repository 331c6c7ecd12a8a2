/** The optional-value type used wherever the Java code can throw instead of returning. */
module Options {

  /** `None` stands for the exception the Java code would throw; `Some` carries the value. */
  datatype Option<+T> = None | Some(value: T)
}
