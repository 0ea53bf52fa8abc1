/** The usual optional value: the regular-expression matchers of the parser answer
    `Some(position)` or `None` where the JavaScript `match` returns an array or `null`. */
module Options {
  datatype Option<+T> = None | Some(value: T)
}
