/** Option stands for a reference that may be null, or for a foreign call that may throw. */
module Wrappers {

  datatype Option<+T> = None | Some(value: T)

  /** The elements of `o` as a list: `[]` for None, `[v]` for Some(v). */
  function ToSeq<T>(o: Option<T>): (r: seq<T>)
    ensures o.Some? ==> r == [o.value]
    ensures o.None? ==> r == []
  {
    match o
    case None => []
    case Some(v) => [v]
  }
}
