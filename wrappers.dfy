/** Optional values (a missing HTML element or a missing dictionary key) and one sequence fact. */
module Wrappers {

  datatype Option<+T> = None | Some(value: T) {

    /** The value, or `default` when there is none. */
    function GetOr(default: T): T {
      match this
      case Some(v) => v
      case None => default
    }
  }

  /** Appending in two steps appends the concatenation; appending nothing changes nothing. */
  lemma Regroup<T>(a: seq<T>, b: seq<T>, c: seq<T>)
    ensures a + (b + c) == (a + b) + c
    ensures b + [] == b && [] + c == c
  {
  }
}
