/** The optional value used for absent results and for the JavaScript `null` slots. */
module Optional {
  datatype Option<+T> = None | Some(value: T)
}
