/** The option type used across the model for values that may be `undefined` or `null`. */
module Options {
  datatype Option<+T> = None | Some(value: T)
}
