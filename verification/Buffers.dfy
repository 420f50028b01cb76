/**
 Copying into the middle of a buffer.
 */
module Buffers {
  /** The buffer after `src` has been copied to offset `at`. */
  function Splice<T>(b: seq<T>, at: nat, src: seq<T>): (r: seq<T>)
    requires at + |src| <= |b|
    ensures |r| == |b|
  {
    b[..at] + src + b[at + |src|..]
  }

  /** Copying two pieces one after the other is copying both at once. */
  lemma SpliceMore<T>(b: seq<T>, at: nat, x: seq<T>, y: seq<T>)
    requires at + |x| + |y| <= |b|
    ensures Splice(Splice(b, at, x), at + |x|, y) == Splice(b, at, x + y)
  {
  }
}
