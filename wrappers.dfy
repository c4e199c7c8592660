/** Optional values: the model of Java's nullable references. */
module Wrappers {
  datatype Option<+T> = None | Some(value: T)
}

/**
 * The three ways a Java factory can end: it returns an object (`Made`),
 * returns `null` (`Null`), or throws an `IllegalArgumentException` from a
 * constructor it calls (`Thrown`).
 */
module Outcomes {
  datatype Outcome<+T> = Made(value: T) | Null | Thrown
}
