/** An optional value: a missing key, an absent file or an absent section. */
module Wrappers {
  datatype Option<T> = None | Some(value: T)
}
