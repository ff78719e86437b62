/** Bytes and little-endian numbers. */
module Bytes {
  type Byte = x: int | 0 <= x < 256

  type Blob = seq<Byte>

  function Pow256(w: nat): (p: nat)
    ensures p > 0
  {
    if w == 0 then 1 else 256 * Pow256(w - 1)
  }

  /** The `w` low bytes of `n`, least significant first. */
  function Le(n: nat, w: nat): (b: Blob)
    ensures |b| == w
  {
    if w == 0 then [] else [n % 256] + Le(n / 256, w - 1)
  }

  function Value(b: Blob): nat {
    if b == [] then 0 else b[0] + 256 * Value(b[1..])
  }

  lemma {:induction false} ValueOfLe(n: nat, w: nat)
    requires n < Pow256(w)
    ensures Value(Le(n, w)) == n
    decreases w
  {
    if w > 0 {
      ValueOfLe(n / 256, w - 1);
      assert Le(n, w)[1..] == Le(n / 256, w - 1);
    }
  }

  /** The `w` bytes at `off`. */
  function At(data: Blob, off: nat, w: nat): (b: Blob)
    requires off + w <= |data|
    ensures |b| == w
  {
    data[off..off + w]
  }

  function Num(data: Blob, off: nat, w: nat): nat
    requires off + w <= |data|
  {
    Value(At(data, off, w))
  }

  lemma AtInside(pre: Blob, g: Blob, post: Blob, off: nat, w: nat)
    requires off + w <= |g|
    ensures At(pre + g + post, |pre| + off, w) == At(g, off, w)
  {}
}
