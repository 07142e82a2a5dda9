/** An optional value: the model's stand-in for Python's "False or a value" returns and for raised errors. */
module Options {

  datatype Option<+T> = None | Some(value: T)
}
