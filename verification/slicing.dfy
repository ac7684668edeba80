/** Python's slice notation on sequences with step 1: `s[:i]`, `s[i:]` and
    `s[i:j]`. A negative bound counts from the end of the sequence, and every
    bound is then clamped to `[0, |s|]`, so slicing never fails. */
module Slicing {

  /** Where Python puts the slice bound `i` in a sequence of length `n`. */
  function Bound(i: int, n: nat): (b: nat)
    ensures b <= n
    ensures 0 <= i <= n ==> b == i
  {
    if i < 0 then (if n + i < 0 then 0 else n + i)
    else if i > n then n
    else i
  }

  /** `s[:i]` */
  function Take<T>(s: seq<T>, i: int): (r: seq<T>)
    ensures |r| == Bound(i, |s|)
    ensures 0 <= i <= |s| ==> r == s[..i]
  {
    s[..Bound(i, |s|)]
  }

  /** `s[i:]` */
  function Drop<T>(s: seq<T>, i: int): (r: seq<T>)
    ensures |r| == |s| - Bound(i, |s|)
    ensures 0 <= i <= |s| ==> r == s[i..]
  {
    s[Bound(i, |s|)..]
  }

  /** `s[i:j]`: empty when the normalised bounds cross. */
  function Slice<T>(s: seq<T>, i: int, j: int): (r: seq<T>)
    ensures |r| == if Bound(i, |s|) <= Bound(j, |s|) then Bound(j, |s|) - Bound(i, |s|) else 0
  {
    var lo, hi := Bound(i, |s|), Bound(j, |s|);
    if lo <= hi then s[lo..hi] else []
  }

  /** Cutting a sequence at any bound and gluing the halves gives it back. */
  lemma TakeDrop<T>(s: seq<T>, i: int)
    ensures Take(s, i) + Drop(s, i) == s
  {
  }
}
