/** Small result types shared by the hash table and the replacer. */
module Wrappers {

  /** A value that may be absent. */
  datatype Option<+T> = None | Some(value: T)

  /** The outcome of an operation that may raise an error instead of returning. */
  datatype Outcome = Ok | InvalidOperation
}
