/** Failure-compatible results and searching, shared by every component. */
module Wrappers {

  datatype Option<+T> = None | Some(value: T)

  datatype Result<+T, +E> = Success(value: T) | Failure(error: E) {
    predicate IsFailure() {
      Failure?
    }

    function PropagateFailure<U>(): Result<U, E>
      requires Failure?
    {
      Failure(error)
    }

    function Extract(): T
      requires Success?
    {
      value
    }
  }

  /** The outcome of a guard: `:- Need(condition, error);` is an early error return. */
  datatype Guard<+E> = Hold | Break(error: E) {
    predicate IsFailure() {
      Break?
    }

    function PropagateFailure<U>(): Result<U, E>
      requires Break?
    {
      Failure(error)
    }
  }

  function Need<E>(condition: bool, error: E): Guard<E> {
    if condition then Hold else Break(error)
  }

  /** The first position whose element satisfies `p`: Rust's `iter().position(p)`. */
  function Position<T>(s: seq<T>, p: T -> bool): (r: Option<nat>)
    ensures r.None? ==> forall i :: 0 <= i < |s| ==> !p(s[i])
    ensures r.Some? ==> r.value < |s| && p(s[r.value])
    ensures r.Some? ==> forall i :: 0 <= i < r.value ==> !p(s[i])
  {
    if s == [] then None
    else if p(s[0]) then Some(0)
    else
      match Position(s[1..], p)
      case None => None
      case Some(i) => Some(i + 1)
  }

  function Max(a: int, b: int): int {
    if a < b then b else a
  }

  function Min(a: int, b: int): int {
    if a < b then a else b
  }

  /** `u64::saturating_sub`. */
  function SaturatingSub(a: nat, b: nat): nat {
    if b < a then a - b else 0
  }
}
