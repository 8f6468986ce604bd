/** An optional value: a form field that may be missing, a parse that may fail. */
module Options {

  datatype Option<+T> = None | Some(value: T)
}
