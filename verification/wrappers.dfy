/** Small failure-compatible datatypes shared by the model. */
module Wrappers {

  /** A value that may be absent: a PDF page whose text could not be read,
      or the numeric suffix of an identifier that does not parse. */
  datatype Option<+T> = None | Some(value: T) {

    /** The wrapped value, or `default` when absent (Python's `x or ""`). */
    function GetOr(default: T): (r: T)
      ensures Some? ==> r == value
      ensures None? ==> r == default
    {
      match this
      case Some(v) => v
      case None => default
    }
  }
}
