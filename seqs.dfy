/**
  Sequence helpers shared by the catalogue: an optional value for `find`,
  `Array.prototype.slice` on non-negative bounds, and order-preserving
  subsequences.
 */
module Seqs {

  datatype Option<T> = None | Some(value: T)

  function Min(a: int, b: int): int {
    if a <= b then a else b
  }

  function Max(a: int, b: int): int {
    if a <= b then b else a
  }

  /**
    `s.slice(start, end)` for non-negative bounds: both bounds are clipped to
    the length, and a range that ends before it starts is empty. The result
    holds the elements of `s` from `start` on, as many as fit below `end`.
   */
  function Slice<T>(s: seq<T>, start: nat, end: nat): (r: seq<T>)
    ensures |r| == Max(Min(end, |s|) - start, 0)
    ensures forall k :: 0 <= k < |r| ==> r[k] == s[start + k]
  {
    var from := Min(start, |s|);
    var to := Min(end, |s|);
    if to <= from then [] else s[from..to]
  }

  /**
    `xs` is obtained from `ys` by deleting elements, keeping the relative
    order of the rest.
   */
  predicate IsSubsequence<T(==)>(xs: seq<T>, ys: seq<T>) {
    if xs == [] then true
    else if ys == [] then false
    else (xs[0] == ys[0] && IsSubsequence(xs[1..], ys[1..])) || IsSubsequence(xs, ys[1..])
  }
}
