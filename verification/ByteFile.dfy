/**
 A file as a plain byte sequence: the meaning of pwrite and ftruncate. The backing file and
 the decrypted file are both read through these functions.
 */
module ByteFile {
  import opened Bytes

  /** ftruncate: cut, or grow with zeros. */
  function Resize(s: bytes, n: nat): bytes {
    if n <= |s| then s[..n] else s + Zeros(n - |s|)
  }

  /** pwrite of d at off: a gap between the end of s and off reads as zeros. */
  function Overlay(s: bytes, off: nat, d: bytes): bytes {
    if d == [] then s
    else Resize(s, off) + d + (if off + |d| < |s| then s[off + |d|..] else [])
  }

  /** Overlay, byte by byte: the new bytes in range, the old ones elsewhere, zeros in the gap. */
  lemma OverlayBytes(s: bytes, off: nat, d: bytes)
    requires d != []
    ensures var r := Overlay(s, off, d);
      && |r| == Max(|s|, off + |d|)
      && forall i | 0 <= i < |r| ::
           r[i] == if off <= i < off + |d| then d[i - off] else if i < |s| then s[i] else 0
  {
  }

  /** Growing is writing zeros up to the new end; a single zero at the last byte is enough. */
  lemma GrowByOneByte(s: bytes, n: nat)
    requires |s| < n
    ensures Overlay(s, n - 1, Zeros(1)) == Resize(s, n)
  {
    OverlayBytes(s, n - 1, Zeros(1));
  }

  lemma ResizeTwice(s: bytes, m: nat, n: nat)
    requires |s| <= m <= n
    ensures Resize(Resize(s, m), n) == Resize(s, n)
  {
    assert Zeros(m - |s|) + Zeros(n - m) == Zeros(n - |s|);
  }

  /** Growing to any point before the write first changes nothing about the write. */
  lemma GapIsResize(s: bytes, mid: nat, off: nat, d: bytes)
    requires |s| <= mid <= off && d != []
    ensures Overlay(Resize(s, mid), off, d) == Overlay(s, off, d)
  {
    ResizeTwice(s, mid, off);
  }

  /** Rewriting a whole range around a write, with the bytes the write leaves there, is the write. */
  lemma RewriteRange(s: bytes, off: nat, d: bytes, lo: nat, hi: nat)
    requires d != [] && lo <= off && off + |d| <= hi && lo <= |s|
    ensures var r := Overlay(s, off, d);
      && Overlay(s, lo, Clip(r, lo, hi)) == r
      && |Clip(r, lo, hi)| == Min(hi, Max(|s|, off + |d|)) - lo
  {
    var r := Overlay(s, off, d);
    OverlayBytes(s, off, d);
    OverlayBytes(s, lo, Clip(r, lo, hi));
  }

  lemma ClipBytes(s: bytes, lo: nat, hi: nat)
    requires lo < hi
    ensures |Clip(s, lo, hi)| == if lo < |s| then Min(hi, |s|) - lo else 0
    ensures forall k | 0 <= k < |Clip(s, lo, hi)| :: Clip(s, lo, hi)[k] == s[lo + k]
  {
  }

  /** The part of a write that falls in [lo, hi) can be made on that range alone. */
  lemma ClipOfOverlay(s: bytes, off: nat, d: bytes, lo: nat, hi: nat, pos: nat, len: nat, skip: nat)
    requires 0 < len && pos + len <= |d| && lo + skip == off + pos && skip + len <= hi - lo
    requires pos == 0 || skip == 0
    requires pos + len == |d| || skip + len == hi - lo
    ensures Clip(Overlay(s, off, d), lo, hi) == Overlay(Clip(s, lo, hi), skip, d[pos..pos + len])
  {
    hide Overlay, Clip;
    var whole, part := Overlay(s, off, d), Overlay(Clip(s, lo, hi), skip, d[pos..pos + len]);
    OverlayBytes(s, off, d);
    ClipBytes(whole, lo, hi);
    ClipBytes(s, lo, hi);
    OverlayBytes(Clip(s, lo, hi), skip, d[pos..pos + len]);
    assert |Clip(whole, lo, hi)| == |part|;
    forall k | 0 <= k < |part| ensures Clip(whole, lo, hi)[k] == part[k] {}
  }

  lemma ClipJoin(s: bytes, a: nat, b: nat, c: nat)
    requires a <= b <= c && b <= |s|
    ensures Clip(s, a, b) + Clip(s, b, c) == Clip(s, a, c)
  {
  }
}
