/** An optional value: C#'s `null` reference and JavaScript's `null`/`undefined`. */
module Options {
  datatype Option<+T> = None | Some(value: T)
}
