/** The optional value used wherever the source returns `None`, `null`,
    `undefined` or `NaN` instead of a value. */
module Options {

  datatype Option<+T> = None | Some(value: T) {

    /** The value held, or `default` when there is none (JavaScript's `x || d`
        when `x` is never falsy otherwise). */
    function GetOr(default: T): T {
      match this
      case Some(v) => v
      case None => default
    }
  }
}
