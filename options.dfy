/** The optional value used for the parsers' "no date" outcome (the source's `null`
    and moment's invalid date). */
module Options {
  datatype Option<+T> = None | Some(value: T)
}
