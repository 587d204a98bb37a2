/** The usual optional value; None stands for a null pointer, too. */
module Options {
  datatype Option<+T> = None | Some(value: T)
}
