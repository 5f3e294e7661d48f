/** The optional value used wherever the source reads something that may be absent:
    a storage key that is not set, a map lookup that misses, a CSV line that is no
    question. */
module Wrappers {

  datatype Option<+T> = None | Some(value: T) {

    /** The value held, or the given default when there is none. */
    function GetOr(default: T): T {
      match this
      case Some(v) => v
      case None => default
    }
  }
}
