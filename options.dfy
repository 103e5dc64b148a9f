/** The "no value" marker: pandas yields NaN where this model yields None. */
module Options {
  datatype Option<T> = None | Some(value: T)
}
