/** Sequences with a piece taken out or replaced. */
module Sequences {

  function Without<T>(s: seq<T>, k: int): (r: seq<T>)
    requires 0 <= k < |s|
    ensures |r| == |s| - 1
  {
    s[..k] + s[k + 1..]
  }

  lemma WithoutIndex<T>(s: seq<T>, k: int)
    requires 0 <= k < |s|
    ensures forall j :: 0 <= j < |s| - 1 ==> Without(s, k)[j] == s[if j < k then j else j + 1]
  {
  }

  /** s with the elements of d in place of those from position at on. */
  function Splice<T>(s: seq<T>, at: int, d: seq<T>): (r: seq<T>)
    requires 0 <= at && at + |d| <= |s|
    ensures |r| == |s|
    ensures forall x :: 0 <= x < |s| ==> r[x] == if at <= x < at + |d| then d[x - at] else s[x]
  {
    s[..at] + d + s[at + |d|..]
  }
}
