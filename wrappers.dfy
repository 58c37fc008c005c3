/** The optional-value type shared by the model. */
module Wrappers {

  /** A value that may be absent: a cell the numeric parser rejects gives None. */
  datatype Option<+T> = None | Some(value: T)

  /** Numeric value of a parse result, 0 where the parse failed (used only to state sums). */
  function ValueOrZero(o: Option<real>): real {
    match o
    case Some(v) => v
    case None => 0.0
  }
}
