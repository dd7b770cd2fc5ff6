/** A value that may be missing, and a sequence of equal values. */
module Wrappers {

  datatype Option<T> = None | Some(value: T)

  function Fill<T>(k: nat, x: T): (t: seq<T>)
    ensures |t| == k && forall i :: 0 <= i < k ==> t[i] == x
  {
    if k == 0 then [] else [x] + Fill(k - 1, x)
  }
}
