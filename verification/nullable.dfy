/**
 * Nullable C pointers. `None` is `NULL`; `Some(value)` is a pointer to
 * `value`.
 */
module Nullable {

  datatype Option<T> = None | Some(value: T)
  {
    /** What C code reads through the pointer, with `fallback` read for `NULL`. */
    function ValueOr(fallback: T): T
    {
      if Some? then value else fallback
    }
  }
}
