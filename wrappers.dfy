/** Rust's `Option`, as far as the editor core uses it. */
module Wrappers {

  datatype Option<+T> = None | Some(value: T) {

    /** `Option::unwrap_or` */
    function GetOr(default: T): T {
      match this
      case Some(v) => v
      case None => default
    }
  }

  /** `Iterator::nth` on a sequence walked from the front: the `n`-th element, if there is one. */
  function Nth<T>(s: seq<T>, n: nat): (r: Option<T>)
    ensures r.Some? <==> n < |s|
    ensures r.Some? ==> r.value == s[n]
  {
    if s == [] then None
    else if n == 0 then Some(s[0])
    else Nth(s[1..], n - 1)
  }
}
