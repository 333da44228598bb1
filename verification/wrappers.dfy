/** The optional value used for lookups that can come back empty. */
module Wrappers {

  /** The usual Some/None datatype, used in place of Java's `null` and `Optional`. */
  datatype Option<+T> = None | Some(value: T)
}
