/** Option, Result and small sequence helpers shared by the model. */
module Wrappers {

  /** A value that may be missing: an absent cache key, a stored value that does not decode. */
  datatype Option<+T> = None | Some(value: T)

  /** The outcome of an operation that can throw: `Failure` carries what was thrown. */
  datatype Result<+R, +E> = Success(value: R) | Failure(error: E)

  /** The first `n` elements of `s`, or all of them when there are fewer (`Array.prototype.slice(0, n)`). */
  function Take<T>(s: seq<T>, n: nat): (r: seq<T>)
    ensures |r| <= n && |r| <= |s|
    ensures |r| == n || |r| == |s|
    ensures r == s[..|r|]
  {
    if |s| <= n then s else s[..n]
  }

  /** The smaller of two numbers. */
  function Min(a: int, b: int): int {
    if a <= b then a else b
  }
}
