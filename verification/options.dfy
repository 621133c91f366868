/** An optional value: the Dafny counterpart of a JavaScript value that may be `undefined`. */
module Options {

  datatype Option<+T> = None | Some(value: T)
}
