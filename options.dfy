/** The usual Some/None datatype, used for values the source represents as `null` or `undefined`. */
module Options {

  datatype Option<+T> = None | Some(value: T)
}
