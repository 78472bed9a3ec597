/**
 The optional-value datatype used wherever the C code returns NULL, FALSE
 or 0 to signal that an operation did not produce a value.
 */
module Options {

  datatype Option<+T> = None | Some(value: T)
}
