/** Values that Python may leave `None`. */
module Options {
  datatype Option<+T> = None | Some(value: T)

  datatype Result<+T> = Success(value: T) | Failure
}
