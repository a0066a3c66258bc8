/** A value that may be absent: the model's stand-in for a NULL result or a
    rejected request. */
module Options {

  datatype Option<+T> = None | Some(value: T)
}
