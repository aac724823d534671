/** Bytes, byte strings and the Option datatype shared by the whole model. */
module Bytes {
  newtype byte = x: int | 0 <= x < 256

  type bytes = seq<byte>

  /** A clean absolute path as its components; the root has none. */
  type Path = seq<bytes>

  datatype Option<+T> = None | Some(value: T)

  function Min(a: nat, b: nat): nat { if a < b then a else b }

  function Max(a: nat, b: nat): nat { if a < b then b else a }

  /** n zero bytes: what a file hole reads as. */
  function Zeros(n: nat): (r: bytes)
    ensures |r| == n && forall i :: 0 <= i < n ==> r[i] == 0
  {
    seq(n, _ => 0)
  }

  /** s[lo..hi] with both ends clamped to |s|, as a short read returns it. */
  function Clip(s: bytes, lo: nat, hi: nat): bytes {
    if lo < hi && lo < |s| then s[lo..Min(hi, |s|)] else []
  }
}
