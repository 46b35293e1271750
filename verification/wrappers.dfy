/** The two shapes the OCR code uses for "maybe": a dictionary entry or
    match that can be missing, and a step that can raise. */
module Wrappers {

  /** A match, confidence or column value that may be missing; `None`
      stands for Python's `None`. */
  datatype Option<+T> = None | Some(value: T) {

    /** `x if x is not None else fallback`. */
    function GetOr(fallback: T): T {
      match this
      case Some(v) => v
      case None => fallback
    }
  }

  /** What a step that can raise hands back: the value it returns, or the
      exception it raises in its place. */
  datatype Result<+R, +E> = Success(value: R) | Failure(error: E)
}
