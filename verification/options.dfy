/** The optional-value type shared by the parsers of this model. */
module Options {

  /** `None` stands for "no value", such as a failed parse. */
  datatype Option<+T> = None | Some(value: T)
}
