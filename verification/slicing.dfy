/** Python's `xs[:n]` and `xs[n:]`, including the negative-bound cases. */
module Slicing {

  /** The index `xs[:n]` stops at: negative `n` counts from the end, both clamp. */
  function SliceEnd(len: nat, n: int): (e: nat)
    ensures e <= len
    ensures n >= 0 ==> e == if n < len then n else len
    ensures n < 0 ==> e == if len + n > 0 then len + n else 0
  {
    if n >= 0 then (if n < len then n else len)
    else if len + n > 0 then len + n else 0
  }

  /** `xs[:n]`. */
  function Take<T>(xs: seq<T>, n: int): (r: seq<T>)
    ensures |r| <= |xs| && r == xs[..|r|]
    ensures n >= 0 ==> |r| == if n < |xs| then n else |xs|
  {
    xs[..SliceEnd(|xs|, n)]
  }
}
