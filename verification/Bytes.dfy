/** Numbers the size of a byte, the powers of two, and a fact about buffers. */
module Bytes {
  type byte = x: int | 0 <= x < 256

  function Pow2(n: nat): nat {
    if n == 0 then 1 else 2 * Pow2(n - 1)
  }

  /** What is equal from one place on is equal from every later one. */
  lemma SameTail<T>(p: seq<T>, q: seq<T>, from: nat, to: nat)
    requires |p| == |q| && from <= to <= |p| && p[from..] == q[from..]
    ensures p[to..] == q[to..]
  {
    assert p[from..][to - from..] == p[to..] && q[from..][to - from..] == q[to..];
  }
}
