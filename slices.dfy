/**
 Python's slices `s[:k]` and `s[k:]` on a list, for every integer `k`: a bound
 beyond the end is clipped to the length and a negative bound counts from the end.
 */
module Slices {

  /** The position that the bound `k` of `s[:k]` or `s[k:]` denotes in a sequence of length `n`. */
  function Bound(n: nat, k: int): (b: nat)
    ensures b <= n
  {
    if 0 <= k then (if k <= n then k else n)
    else if n + k >= 0 then n + k
    else 0
  }

  /** `s[:k]` */
  function Take<T>(s: seq<T>, k: int): seq<T>
  {
    s[..Bound(|s|, k)]
  }

  /** `s[k:]` */
  function Drop<T>(s: seq<T>, k: int): seq<T>
  {
    s[Bound(|s|, k)..]
  }

  /** The two slices at the same bound split the sequence: nothing is lost, duplicated or reordered. */
  lemma TakeDropSplit<T>(s: seq<T>, k: int)
    ensures Take(s, k) + Drop(s, k) == s
  {
  }

  /** For a non-negative bound, `s[:k]` is the first `min(k, |s|)` elements. */
  lemma TakeFront<T>(s: seq<T>, k: int)
    requires 0 <= k
    ensures |Take(s, k)| == if k <= |s| then k else |s|
    ensures forall i :: 0 <= i < |Take(s, k)| ==> Take(s, k)[i] == s[i]
    ensures |Drop(s, k)| == |s| - |Take(s, k)|
    ensures Drop(s, k) == s[|Take(s, k)|..]
  {
  }

  /** For a negative bound, `s[k:]` is the last `min(-k, |s|)` elements and `s[:k]` is everything before them. */
  lemma TakeDropNegative<T>(s: seq<T>, k: int)
    requires k < 0
    ensures |Drop(s, k)| == if -k <= |s| then -k else |s|
    ensures forall i :: 0 <= i < |Drop(s, k)| ==> Drop(s, k)[i] == s[|s| - |Drop(s, k)| + i]
    ensures Take(s, k) == s[..|s| - |Drop(s, k)|]
  {
  }
}
