/** An optional value, for lookups that may find nothing. */
module OptionType {
  datatype Option<T> = None | Some(value: T)
}
