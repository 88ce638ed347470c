/** Optional values, used wherever the source yields nil, NaN or "not found". */
module Wrappers {

  datatype Option<+T> = None | Some(value: T)
  {
    predicate IsSome() { Some? }

    function GetOr(default: T): (r: T)
      ensures Some? ==> r == value
      ensures None? ==> r == default
    {
      match this
      case None => default
      case Some(v) => v
    }
  }
}
