/** Values that may be missing, as `std::optional` is used throughout. */
module Options {

  datatype Option<+T> = None | Some(value: T)
}
