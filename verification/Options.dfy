/** An optional value: the null-or-pointer results of the lookups. */
module Options {
  datatype Option<+T> = None | Some(value: T)
}
