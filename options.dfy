/** An optional value, for a key with no direction and a name prompt that was dismissed. */
module Options {
  datatype Option<+T> = None | Some(value: T)
}
