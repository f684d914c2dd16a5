/** Optional values, standing in for JavaScript's `undefined`/`null`/`NaN`. */
module Wrappers {

  datatype Option<+T> = None | Some(value: T) {

    /** The wrapped value, or `default` when absent (JavaScript's `x ?? default`). */
    function GetOr(default: T): T {
      match this
      case Some(v) => v
      case None => default
    }
  }

  /**
   * JavaScript's `text || fallback` for a text that may be missing: a missing
   * text and the empty text are both falsy.
   */
  function TextOr(text: Option<string>, fallback: string): string {
    if text.Some? && text.value != [] then text.value else fallback
  }
}
