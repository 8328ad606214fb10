/**
 What the other modules share.
 */
module Wrappers {

  datatype Option<+T> = None | Some(value: T)

  /** `s` with the elements from `at` on replaced with `values`. */
  function Overwritten<T>(s: seq<T>, at: int, values: seq<T>): (r: seq<T>)
    requires 0 <= at && at + |values| <= |s|
    ensures |r| == |s|
  {
    s[..at] + values + s[at + |values|..]
  }
}
