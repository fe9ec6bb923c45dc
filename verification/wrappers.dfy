/** The optional value used wherever the source has `T | null`, `T | undefined`
    or Python's `Optional[T]`. */
module Wrappers {

  datatype Option<+T> = None | Some(value: T) {

    /** The value, or `default` when absent (the `??` operator). */
    function GetOr(default: T): T {
      match this
      case Some(v) => v
      case None => default
    }
  }

  /** A TypeScript field declared `x?: T | null`: missing, null, or a value. */
  datatype Nullish<+T> = Undefined | Null | Present(value: T) {

    /** `x ?? null`: both kinds of absence become an explicit `None`. */
    function OrNull(): (r: Option<T>)
      ensures r.Some? <==> Present?
      ensures Present? ==> r.value == value
    {
      match this
      case Present(v) => Some(v)
      case _ => None
    }
  }
}
