/** An optional value: a missing map entry, an unwritten variable, an unsatisfiable formula. */
module Options {

  datatype Option<+T> = None | Some(value: T)
}
