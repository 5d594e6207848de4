/** A value that may be missing: the model's stand-in for a Python call that raised. */
module Optional {

  datatype Option<T> = None | Some(value: T)
}
