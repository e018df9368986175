/** Python's list slicing `xs[:n]`, which both crawler variants use to cap how many listings they read. */
module Seqs {

  /**
   `xs[:n]`: the first `n` elements, all of them when `n >= |xs|`; a
   negative `n` counts from the end, so `xs[:-1]` drops the last element.
   */
  function Head<T>(xs: seq<T>, n: int): (r: seq<T>)
    ensures |r| <= |xs| && r == xs[..|r|]
    ensures 0 <= n ==> |r| == (if n <= |xs| then n else |xs|)
    ensures n < 0 ==> |r| == (if -n <= |xs| then |xs| + n else 0)
  {
    if 0 <= n then
      (if n <= |xs| then xs[..n] else xs)
    else
      (if -n <= |xs| then xs[..|xs| + n] else [])
  }

  /** A cap of `n >= 0` never yields more than `n` elements; a negative cap never yields all of a non-empty list. */
  lemma HeadBound<T>(xs: seq<T>, n: int)
    ensures 0 <= n ==> |Head(xs, n)| <= n
    ensures n < 0 && xs != [] ==> |Head(xs, n)| < |xs|
  {
  }
}
