/** Sequence helpers: Python's `list(reversed(...))` and the `[:n]` slice. */
module Sequences {

  function Min(a: int, b: int): int
  {
    if a < b then a else b
  }

  /** `s[:n]` for a non-negative `n`: the first `n` elements, or all of them. */
  function Take<T>(s: seq<T>, n: nat): (r: seq<T>)
    ensures |r| == Min(|s|, n)
    ensures r == s[..|r|]
  {
    if n < |s| then s[..n] else s
  }

  /** `list(reversed(s))`. */
  function Reverse<T>(s: seq<T>): seq<T>
  {
    seq(|s|, i requires 0 <= i < |s| => s[|s| - 1 - i])
  }

  lemma ReverseReverse<T>(s: seq<T>)
    ensures Reverse(Reverse(s)) == s
  {
  }

  /** Reversing, then keeping the first `j` elements, is reversing the last `j`. */
  lemma ReverseTake<T>(s: seq<T>, j: nat)
    requires j <= |s|
    ensures Reverse(s)[..j] == Reverse(s[|s| - j..])
  {
  }

  /** A non-empty slice starts and ends where it was cut. */
  lemma SliceEnds<T>(s: seq<T>, t: seq<T>, lo: nat, hi: nat)
    requires lo < hi <= |t| && s == t[lo..hi]
    ensures |s| > 0 && s[0] == t[lo] && s[|s| - 1] == t[hi - 1]
  {
  }
}
