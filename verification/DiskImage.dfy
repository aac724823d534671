/**
 What the bytes of a backing file stand for, and how rewriting some of its blocks changes that.
 Everything here is about values; the operations that touch the file are in EncFile.
 */
module DiskImage {
  import opened Bytes
  import opened ByteFile
  import opened Offsets
  import opened ContentEnc
  import opened FileHeader

  function HeaderID(d: bytes): FileID
    requires HEADER_LEN <= |d|
  {
    d[HEADER_VERSION_LEN..HEADER_LEN]
  }

  /** The blocks c after a header with this ID stand for the plaintext p. */
  ghost predicate BodyHolds(be: ContentEnc, c: bytes, id: FileID, p: bytes) {
    && PlainOf(be, c, 0, id) == Some(p)
    && (c == [] || LegalCipherSize(Geo(be), HEADER_LEN + |c|))
  }

  /** A backing file any handle can read: empty, or a header followed by blocks that all decrypt. */
  ghost predicate Intact(be: ContentEnc, d: bytes) {
    || d == []
    || (&& HEADER_LEN <= |d|
        && ParseHeader(d[..HEADER_LEN]).Parsed?
        && exists p :: BodyHolds(be, d[HEADER_LEN..], HeaderID(d), p))
  }

  ghost function Plain(be: ContentEnc, d: bytes): (p: bytes)
    requires Intact(be, d)
    ensures d != [] ==> BodyHolds(be, d[HEADER_LEN..], HeaderID(d), p)
    ensures d == [] ==> p == []
  {
    if d == [] then [] else PlainOf(be, d[HEADER_LEN..], 0, HeaderID(d)).value
  }

  /** Length of the blocks that hold n bytes of plaintext. */
  function BodyLen(be: ContentEnc, n: nat): nat
  {
    if n == 0 then 0 else
      assert PlainSizeToCipherSize(Geo(be), n) >= HEADER_LEN;
      PlainSizeToCipherSize(Geo(be), n) - HEADER_LEN
  }

  /** The plaintext fixes the size of the blocks, and the stored size reports the plaintext size. */
  lemma BodySize(be: ContentEnc, c: bytes, id: FileID, p: bytes)
    requires BodyHolds(be, c, id, p)
    ensures |c| == BodyLen(be, |p|)
    ensures CipherSizeToPlainSize(Geo(be), HEADER_LEN + |c|) == |p|
  {
    hide DecryptBlock, PlainOf;
    if c == [] {
      PlainOfLength(be, [], 0, id, 0, 0);
    } else {
      var b := CipherBS(be);
      var q, r := |c| / b, |c| % b;
      DivMod(|c|, b);
      PlainOfLength(be, c, 0, id, q, r);
      PlainSizeOfBlocks(Geo(be), q, r);
      CipherSizeRoundTrip(Geo(be), HEADER_LEN + |c|);
    }
  }

  lemma BodyLenMonotone(be: ContentEnc, m: nat, n: nat)
    requires m <= n
    ensures BodyLen(be, m) <= BodyLen(be, n)
  {
    if m > 0 {
      PlainSizeRoundTrip(Geo(be), m);
      SizesAdjoint(Geo(be), PlainSizeToCipherSize(Geo(be), m), n);
    }
  }

  /** k full blocks and r more bytes. */
  lemma BodyLenAt(be: ContentEnc, k: nat, r: nat)
    requires r <= be.plainBS
    ensures BodyLen(be, POff(be, k) + r) == COff(be, k) + (if r == 0 then 0 else r + Overhead(be))
  {
    if r < be.plainBS {
      CipherSizeOfBlocks(Geo(be), k, r);
    } else {
      MulStep(k, be.plainBS);
      MulStep(k, CipherBS(be));
      CipherSizeOfBlocks(Geo(be), k + 1, 0);
    }
  }

  /** Blocks n0 .. n0+m holding t bytes, the last block not empty, end where the size of n0*bs+t says. */
  lemma BodyLenOfBlocks(be: ContentEnc, n0: nat, m: nat, t: nat)
    requires 0 < m && POff(be, m - 1) < t <= POff(be, m)
    ensures BodyLen(be, POff(be, n0) + t) == COff(be, n0) + t + COff(be, m) - POff(be, m)
  {
    hide POff, COff, BodyLen;
    OffAdd(be, m - 1, 1);
    OffAdd(be, n0, m - 1);
    BodyLenAt(be, n0 + (m - 1), t - POff(be, m - 1));
  }

  lemma BodyLenLegal(be: ContentEnc, n: nat)
    ensures BodyLen(be, n) == 0 || LegalCipherSize(Geo(be), HEADER_LEN + BodyLen(be, n))
  {
    PlainSizeRoundTrip(Geo(be), n);
  }

  lemma NoBlocks(be: ContentEnc, n: nat, id: FileID)
    ensures PlainOf(be, [], n, id) == Some([])
  {
  }

  /** Block boundaries line up: block n starts before the end of the body iff before the end of the plaintext. */
  lemma BlocksInside(be: ContentEnc, c: bytes, id: FileID, p: bytes, n: nat)
    requires BodyHolds(be, c, id, p)
    ensures COff(be, n) < |c| <==> POff(be, n) < |p|
    ensures COff(be, n) <= |c| <==> POff(be, n) <= |p|
  {
    hide COff, BodyLen, PlainOf, LegalCipherSize, DecryptBlock;
    BodySize(be, c, id, p);
    var q, r := BlockNo(be, |p|), |p| % be.plainBS;
    DivMod(|p|, be.plainBS);
    BodyInside(be, q, r, n);
  }

  lemma BodyInside(be: ContentEnc, q: nat, r: nat, n: nat)
    requires r < be.plainBS
    ensures COff(be, n) < BodyLen(be, POff(be, q) + r) <==> POff(be, n) < POff(be, q) + r
    ensures COff(be, n) <= BodyLen(be, POff(be, q) + r) <==> POff(be, n) <= POff(be, q) + r
  {
    hide POff, COff, BodyLen;
    BodyLenAt(be, q, r);
    if n < q {
      OffMono(be, n, q);
    } else if q < n {
      OffMono(be, q, n);
    }
  }

  // ---------- reading a range of blocks ----------

  /** The blocks from n0 on, m of them or as many as there are, hold just those bytes of p. */
  lemma ReadBlocks(be: ContentEnc, c: bytes, id: FileID, p: bytes, n0: nat, m: nat)
    requires BodyHolds(be, c, id, p)
    ensures var x := Clip(c, COff(be, n0), COff(be, n0 + m));
      && PlainOf(be, x, n0, id) == Some(Clip(p, POff(be, n0), POff(be, n0 + m)))
      && (x == [] <==> Clip(p, POff(be, n0), POff(be, n0 + m)) == [])
  {
    hide DecryptBlock, POff, COff, LegalCipherSize, PlainOf;
    OffAdd(be, n0, m);
    OffMono(be, 0, m);
    BlocksInside(be, c, id, p, n0);
    BlocksInside(be, c, id, p, n0 + m);
    if COff(be, n0) < |c| && 0 < m {
      var rest, y := c[COff(be, n0)..], p[POff(be, n0)..];
      DropBlocks(be, c, id, p, n0);
      if COff(be, n0 + m) <= |c| {
        TakeBlocks(be, rest, id, y, n0, m);
        assert Clip(c, COff(be, n0), COff(be, n0 + m)) == rest[..COff(be, m)];
        assert Clip(p, POff(be, n0), POff(be, n0 + m)) == y[..POff(be, m)];
      } else {
        assert Clip(c, COff(be, n0), COff(be, n0 + m)) == rest;
        assert Clip(p, POff(be, n0), POff(be, n0 + m)) == y;
      }
    } else {
      NoBlocks(be, n0, id);
    }
  }

  lemma DropBlocks(be: ContentEnc, c: bytes, id: FileID, p: bytes, n: nat)
    requires PlainOf(be, c, 0, id) == Some(p) && COff(be, n) <= |c| && POff(be, n) <= |p|
    ensures PlainOf(be, c[COff(be, n)..], n, id) == Some(p[POff(be, n)..])
    ensures PlainOf(be, c[..COff(be, n)], 0, id) == Some(p[..POff(be, n)])
  {
    hide DecryptBlock, POff, COff, PlainOf;
    var head, rest := c[..COff(be, n)], c[COff(be, n)..];
    assert c == head + rest;
    PlainOfSplit(be, head, rest, 0, id, n);
  }

  lemma TakeBlocks(be: ContentEnc, c: bytes, id: FileID, p: bytes, n0: nat, m: nat)
    requires PlainOf(be, c, n0, id) == Some(p) && COff(be, m) <= |c|
    ensures POff(be, m) <= |p| && PlainOf(be, c[..COff(be, m)], n0, id) == Some(p[..POff(be, m)])
  {
    hide DecryptBlock, POff, COff, PlainOf;
    var head, rest := c[..COff(be, m)], c[COff(be, m)..];
    assert c == head + rest;
    PlainOfSplit(be, head, rest, n0, id, m);
  }

  // ---------- replacing a range of blocks ----------

  /** ct holds pt in m blocks numbered from n0, all full but perhaps the last, which is not empty. */
  ghost predicate BlocksHold(be: ContentEnc, ct: bytes, n0: nat, m: nat, id: FileID, pt: bytes) {
    && 0 < m && POff(be, m - 1) < |pt| <= POff(be, m)
    && PlainOf(be, ct, n0, id) == Some(pt) && |ct| == |pt| + COff(be, m) - POff(be, m)
  }

  /** Writing fresh blocks at block n0, inside the file or right at its end. */
  lemma ReplaceBlocks(be: ContentEnc, c: bytes, id: FileID, p: bytes, n0: nat, m: nat, ct: bytes, pt: bytes)
    requires BodyHolds(be, c, id, p) && POff(be, n0) <= |p| && BlocksHold(be, ct, n0, m, id, pt)
    requires |pt| < POff(be, m) ==> |p| <= POff(be, n0) + |pt|
    ensures BodyHolds(be, Overlay(c, COff(be, n0), ct), id, Overlay(p, POff(be, n0), pt))
  {
    hide DecryptBlock, PlainOf, POff, COff, LegalCipherSize, BodyLen;
    var p' := Overlay(p, POff(be, n0), pt);
    BlocksInside(be, c, id, p, n0);
    BodyLenOfBlocks(be, n0, m, |pt|);
    BodySize(be, c, id, p);
    BodyLenLegal(be, |p'|);
    OffAdd(be, n0, m);
    OffMono(be, 0, m);
    if |p| <= POff(be, n0) + |pt| {
      BodyLenMonotone(be, |p|, POff(be, n0) + |pt|);
      ReplaceTail(be, c, id, p, n0, ct, pt);
    } else {
      BodyLenMonotone(be, POff(be, n0) + |pt|, |p|);
      ReplaceMiddle(be, c, id, p, n0, m, ct, pt);
    }
  }

  lemma ReplaceTail(be: ContentEnc, c: bytes, id: FileID, p: bytes, n0: nat, ct: bytes, pt: bytes)
    requires PlainOf(be, c, 0, id) == Some(p) && PlainOf(be, ct, n0, id) == Some(pt) && pt != [] && ct != []
    requires POff(be, n0) <= |p| <= POff(be, n0) + |pt| && COff(be, n0) <= |c| <= COff(be, n0) + |ct|
    ensures PlainOf(be, Overlay(c, COff(be, n0), ct), 0, id) == Some(Overlay(p, POff(be, n0), pt))
  {
    hide DecryptBlock, PlainOf, POff, COff, Overlay;
    var head, rest := c[..COff(be, n0)], c[COff(be, n0)..];
    assert c == head + rest;
    PlainOfSplit(be, head, rest, 0, id, n0);
    PlainOfSplit(be, head, ct, 0, id, n0);
    OverlayTail(c, COff(be, n0), ct);
    OverlayTail(p, POff(be, n0), pt);
  }

  lemma OverlayTail(s: bytes, n: nat, t: bytes)
    requires t != [] && n <= |s| <= n + |t|
    ensures Overlay(s, n, t) == s[..n] + t
  {
  }

  lemma ReplaceMiddle(be: ContentEnc, c: bytes, id: FileID, p: bytes, n0: nat, m: nat, ct: bytes, pt: bytes)
    requires PlainOf(be, c, 0, id) == Some(p) && PlainOf(be, ct, n0, id) == Some(pt) && pt != [] && ct != []
    requires |pt| == POff(be, m) && |ct| == COff(be, m)
    requires POff(be, n0) + |pt| <= |p| && COff(be, n0) + |ct| <= |c|
    ensures PlainOf(be, Overlay(c, COff(be, n0), ct), 0, id) == Some(Overlay(p, POff(be, n0), pt))
  {
    hide DecryptBlock, PlainOf, POff, COff, Overlay;
    var head, rest := c[..COff(be, n0)], c[COff(be, n0)..];
    var mid, tail := rest[..COff(be, m)], rest[COff(be, m)..];
    assert c == head + rest && rest == mid + tail;
    PlainOfSplit(be, head, rest, 0, id, n0);
    PlainOfSplit(be, mid, tail, n0, id, m);
    PlainOfSplit(be, ct, tail, n0, id, m);
    PlainOfSplit(be, head, ct + tail, 0, id, n0);
    OverlayInside(head, mid, tail, ct);
    var h, r, t := PlainOf(be, head, 0, id).value, PlainOf(be, mid, n0, id).value, PlainOf(be, tail, n0 + m, id).value;
    OverlayInside(h, r, t, pt);
  }

  lemma OverlayInside(a: bytes, b: bytes, c: bytes, d: bytes)
    requires |b| == |d| && d != []
    ensures Overlay(a + (b + c), |a|, d) == a + (d + c)
  {
    var s := a + (b + c);
    assert s[..|a|] == a && s[|a| + |d|..] == c;
    if c == [] {
      assert d + c == d;
    }
  }

  lemma ResizeIsAppend(s: bytes, n: nat)
    ensures Resize(s, |s| + n) == s + Zeros(n)
  {
  }

  /** Zero blocks after a block-aligned end are zeros of plaintext. */
  lemma GrowWithHoles(be: ContentEnc, c: bytes, id: FileID, p: bytes, q: nat, n: nat)
    requires BodyHolds(be, c, id, p) && |p| == POff(be, q) && q <= n
    ensures BodyHolds(be, Resize(c, COff(be, n)), id, Resize(p, POff(be, n)))
  {
    hide DecryptBlock, PlainOf, POff, COff, LegalCipherSize, BodyLen, Resize;
    BodySize(be, c, id, p);
    BodyLenAt(be, q, 0);
    OffAdd(be, q, n - q);
    ResizeIsAppend(c, COff(be, n - q));
    ResizeIsAppend(p, POff(be, n - q));
    OffMono(be, q, n);
    HolesAreZero(be, q, id, n - q);
    PlainOfSplit(be, c, Zeros(COff(be, n - q)), 0, id, q);
    BodyLenAt(be, n, 0);
    BodyLenLegal(be, POff(be, n));
    assert p + [] == p && c + [] == c;
  }

  /** Cutting at a block boundary keeps the blocks before it. */
  lemma CutBlocks(be: ContentEnc, c: bytes, id: FileID, p: bytes, n: nat)
    requires BodyHolds(be, c, id, p) && POff(be, n) <= |p|
    ensures COff(be, n) <= |c|
    ensures BodyHolds(be, c[..COff(be, n)], id, p[..POff(be, n)])
  {
    hide DecryptBlock, PlainOf, POff, COff, LegalCipherSize, BodyLen;
    BlocksInside(be, c, id, p, n);
    DropBlocks(be, c, id, p, n);
    BodyLenAt(be, n, 0);
    BodyLenLegal(be, POff(be, n));
  }

  // ---------- a write of any range ----------

  /** The write starts no later than the block that holds the end, or the end is on a block boundary. */
  predicate StartsInReach(be: ContentEnc, len: nat, off: nat) {
    Aligned(be, len) || BlockNo(be, off) <= BlockNo(be, len)
  }

  /** m blocks from n0 cover [off, off+len), and the write of data there makes them hold ct. */
  ghost predicate CoversWrite(be: ContentEnc, p: bytes, off: nat, data: bytes, n0: nat, m: nat, ct: bytes, id: FileID) {
    && data != [] && n0 == BlockNo(be, off) && off + |data| <= POff(be, n0 + m)
    && BlocksHold(be, ct, n0, m, id, Clip(Overlay(p, off, data), POff(be, n0), POff(be, n0 + m)))
  }

  lemma WriteBlocks(be: ContentEnc, c: bytes, id: FileID, p: bytes, off: nat, data: bytes, n0: nat, m: nat, ct: bytes)
    requires BodyHolds(be, c, id, p) && CoversWrite(be, p, off, data, n0, m, ct, id)
    requires StartsInReach(be, |p|, off)
    ensures BodyHolds(be, Overlay(c, COff(be, n0), ct), id, Overlay(p, off, data))
  {
    hide DecryptBlock, PlainOf, COff, POff, LegalCipherSize, BodyLen, BodyHolds, Overlay, Resize, Clip;
    var q := BlockNo(be, |p|);
    BlockContains(be, |p|);
    BlockContains(be, off);
    if POff(be, n0) <= |p| {
      WriteBlocksInside(be, c, id, p, off, data, n0, m, ct);
    } else {
      if n0 <= q { OffMono(be, n0, q); }
      GrowWithHoles(be, c, id, p, q, n0);
      var c0, p0 := Resize(c, COff(be, n0)), Resize(p, POff(be, n0));
      ResizeIsAppend(p, POff(be, n0) - |p|);
      BlocksInside(be, c, id, p, n0);
      OffMono(be, 0, m);
      GapIsResize(p, POff(be, n0), off, data);
      GapIsResize(c, COff(be, n0), COff(be, n0), ct);
      WriteBlocksInside(be, c0, id, p0, off, data, n0, m, ct);
    }
  }

  lemma WriteBlocksInside(be: ContentEnc, c: bytes, id: FileID, p: bytes, off: nat, data: bytes, n0: nat, m: nat,
                          ct: bytes)
    requires BodyHolds(be, c, id, p) && CoversWrite(be, p, off, data, n0, m, ct, id)
    requires POff(be, n0) <= |p|
    ensures BodyHolds(be, Overlay(c, COff(be, n0), ct), id, Overlay(p, off, data))
  {
    hide DecryptBlock, PlainOf, COff, POff, LegalCipherSize, BodyLen, BodyHolds;
    BlockContains(be, off);
    OffAdd(be, n0, m);
    RewriteRange(p, off, data, POff(be, n0), POff(be, n0 + m));
    ReplaceBlocks(be, c, id, p, n0, m, ct, Clip(Overlay(p, off, data), POff(be, n0), POff(be, n0 + m)));
  }

  lemma BlockContains(be: ContentEnc, off: nat)
    ensures POff(be, BlockNo(be, off)) <= off < POff(be, BlockNo(be, off)) + be.plainBS
    ensures off == POff(be, BlockNo(be, off)) + BlockRest(be, off)
  {
    DivMod(off, be.plainBS);
  }

  // ---------- the header in front of the blocks ----------

  lemma OverlayAfterHeader(d: bytes, o: nat, ct: bytes)
    requires HEADER_LEN <= |d|
    ensures Overlay(d, HEADER_LEN + o, ct) == d[..HEADER_LEN] + Overlay(d[HEADER_LEN..], o, ct)
  {
    if ct == [] {
      assert d == d[..HEADER_LEN] + d[HEADER_LEN..];
    } else {
      hide Resize;
      var head, body := d[..HEADER_LEN], d[HEADER_LEN..];
      var end := o + |ct|;
      var tail := if end < |body| then body[end..] else [];
      ResizeAfterHeader(d, o);
      assert tail == if HEADER_LEN + end < |d| then d[HEADER_LEN + end..] else [];
      assert head + Resize(body, o) + ct + tail == head + (Resize(body, o) + ct + tail);
    }
  }

  lemma ResizeAfterHeader(d: bytes, m: nat)
    requires HEADER_LEN <= |d|
    ensures Resize(d, HEADER_LEN + m) == d[..HEADER_LEN] + Resize(d[HEADER_LEN..], m)
  {
    if HEADER_LEN + m <= |d| {
      assert d[..HEADER_LEN + m] == d[..HEADER_LEN] + d[HEADER_LEN..][..m];
    } else {
      assert d == d[..HEADER_LEN] + d[HEADER_LEN..];
    }
  }

  lemma ClipAfterHeader(d: bytes, lo: nat, hi: nat)
    requires HEADER_LEN <= |d|
    ensures Clip(d, HEADER_LEN + lo, HEADER_LEN + hi) == Clip(d[HEADER_LEN..], lo, hi)
  {
    if lo < hi && HEADER_LEN + lo < |d| {
      var top := Min(HEADER_LEN + hi, |d|);
      assert d[HEADER_LEN + lo..top] == d[HEADER_LEN..][lo..top - HEADER_LEN];
    }
  }

  lemma IntactIntro(be: ContentEnc, d: bytes, c: bytes, p: bytes)
    requires HEADER_LEN <= |d| && ParseHeader(d[..HEADER_LEN]).Parsed? && d[HEADER_LEN..] == c
    requires BodyHolds(be, c, HeaderID(d), p)
    ensures Intact(be, d) && Plain(be, d) == p
  {
  }

  /** The ID a handle caches from an intact file with content is the one the header parser returns. */
  lemma ParsedID(d: bytes)
    requires HEADER_LEN <= |d| && ParseHeader(d[..HEADER_LEN]).Parsed?
    ensures ParseHeader(d[..HEADER_LEN]).id == HeaderID(d)
  {
  }

  // ---------- what goes wrong past an unaligned end ----------

  /** A short last block with zeros behind it no longer decrypts, so neither does the file. */
  lemma ZeroExtendedBlockFails(be: ContentEnc, c: bytes, id: FileID, p: bytes, q: nat, k: nat, rest: bytes)
    requires RejectsZeroExtension(be.aead)
    requires BodyHolds(be, c, id, p) && POff(be, q) < |p| < POff(be, q + 1) && |c| + k == COff(be, q + 1)
    ensures PlainOf(be, c + Zeros(k) + rest, 0, id).None?
  {
    hide POff, COff, LegalCipherSize, BodyLen, PlainOf, DecryptBlock, RejectsZeroExtension;
    OffAdd(be, q, 1);
    BlocksInside(be, c, id, p, q);
    BodySize(be, c, id, p);
    BodyLenAt(be, q, |p| - POff(be, q));
    var head, last := c[..COff(be, q)], c[COff(be, q)..];
    assert c == head + last;
    PlainOfSplit(be, head, last, 0, id, q);
    OneBlock(be, last, q, id);
    ExtendedBlockFails(be, last, q, id, k);
    OneBlock(be, last + Zeros(k), q, id);
    assert c + Zeros(k) == head + (last + Zeros(k));
    PlainOfSplit(be, head, last + Zeros(k), 0, id, q);
    PlainOfSplit(be, c + Zeros(k), rest, 0, id, q + 1);
  }

  lemma ExtendedBlockFails(be: ContentEnc, last: bytes, q: nat, id: FileID, k: nat)
    requires RejectsZeroExtension(be.aead) && 0 < k
    requires last != [] && |last| < CipherBS(be) && DecryptBlock(be, last, q, id).Some?
    ensures DecryptBlock(be, last + Zeros(k), q, id).None?
  {
    var plain := DecryptBlock(be, last, q, id).value;
    DecryptBlockAccepts(be, last, q, id, plain);
    var nonce :| SealedUnder(be, nonce, plain, q, id, last);
    var x := last + Zeros(k);
    assert x[..be.ivLen] == nonce;
    assert x[be.ivLen..] == be.aead.seal(nonce, plain, ConcatAD(q, id)) + Zeros(k);
    assert Zeros(CipherBS(be))[..be.ivLen] == Zeros(be.ivLen);
  }

  lemma WritePastUnalignedEnd(be: ContentEnc, c: bytes, id: FileID, p: bytes, off: nat, n0: nat, ct: bytes)
    requires RejectsZeroExtension(be.aead) && ct != []
    requires BodyHolds(be, c, id, p) && !StartsInReach(be, |p|, off) && n0 == BlockNo(be, off)
    ensures PlainOf(be, Overlay(c, COff(be, n0), ct), 0, id).None?
  {
    hide DecryptBlock, PlainOf, COff, POff, LegalCipherSize, BodyLen, RejectsZeroExtension, Overlay;
    var q := BlockNo(be, |p|);
    BlockContains(be, |p|);
    OffAdd(be, q, 1);
    OffMono(be, q + 1, n0);
    BlocksInside(be, c, id, p, q + 1);
    var k, gap := COff(be, q + 1) - |c|, COff(be, n0) - COff(be, q + 1);
    ZeroExtendedBlockFails(be, c, id, p, q, k, Zeros(gap) + ct);
    OverlayPast(c, k, gap, ct);
  }

  lemma OverlayPast(c: bytes, k: nat, gap: nat, ct: bytes)
    requires ct != []
    ensures Overlay(c, |c| + k + gap, ct) == c + Zeros(k) + (Zeros(gap) + ct)
  {
    assert Zeros(k + gap) == Zeros(k) + Zeros(gap);
  }
}
