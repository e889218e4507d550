/** Definitions shared by the modules of this model: the optional value (a run
    of blocking operations that reaches an operation which would block yields
    None) and a run of n copies of the same call. */
module Wrappers {
  datatype Option<+T> = None | Some(value: T)

  /** n copies of the same element. */
  function Repeat<T>(x: T, n: nat): (xs: seq<T>)
    ensures |xs| == n
    ensures forall i :: 0 <= i < n ==> xs[i] == x
  {
    if n == 0 then [] else [x] + Repeat(x, n - 1)
  }
}
