/** The optional value that Python code expresses by returning `None`. */
module Options {

  datatype Option<+T> = None | Some(value: T)
}
