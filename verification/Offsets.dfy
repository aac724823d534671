/**
 Size and offset translation between plaintext and ciphertext
 (internal/contentenc/offsets.go and intrablock.go). The block sizes stay symbolic.
 */
module Offsets {
  import opened Bytes

  const HEADER_LEN: nat := 18

  datatype RawGeometry = Geometry(plainBS: nat, cipherBS: nat)

  type Geometry = g: RawGeometry | 0 < g.plainBS < g.cipherBS witness Geometry(4096, 4128)

  function BlockOverhead(g: Geometry): nat { g.cipherBS - g.plainBS }

  function PlainOffToBlockNo(g: Geometry, plainOff: nat): nat { plainOff / g.plainBS }

  function CipherOffToBlockNo(g: Geometry, cipherOff: nat): nat
    requires HEADER_LEN <= cipherOff
  {
    (cipherOff - HEADER_LEN) / g.cipherBS
  }

  function BlockNoToCipherOff(g: Geometry, blockNo: nat): nat { HEADER_LEN + blockNo * g.cipherBS }

  function BlockNoToPlainOff(g: Geometry, blockNo: nat): nat { blockNo * g.plainBS }

  function CipherSizeToPlainSize(g: Geometry, size: nat): nat {
    if size <= HEADER_LEN then 0
    else
      var lastBlockSize := (size - HEADER_LEN) % g.cipherBS;
      // an incomplete last block is taken for one byte of plaintext
      var cipherSize := if 0 < lastBlockSize <= BlockOverhead(g)
                        then size - lastBlockSize + BlockOverhead(g) + 1 else size;
      var blockCount := CipherOffToBlockNo(g, cipherSize - 1) + 1;
      var overhead := BlockOverhead(g) * blockCount + HEADER_LEN;
      if overhead > cipherSize then 0 else cipherSize - overhead
  }

  function PlainOffToCipherOff(g: Geometry, plainOff: nat): nat {
    BlockNoToCipherOff(g, PlainOffToBlockNo(g, plainOff)) + plainOff % g.plainBS + BlockOverhead(g)
  }

  function PlainSizeToCipherSize(g: Geometry, plainSize: nat): nat {
    if plainSize == 0 then 0 else PlainOffToCipherOff(g, plainSize - 1) + 1
  }

  // ---------- arithmetic with a symbolic divisor ----------

  lemma DivModUnique(a: nat, d: nat, q: nat, r: nat)
    requires r < d && a == q * d + r
    ensures a / d == q && a % d == r
  {
    var q', r' := a / d, a % d;
    assert a == q' * d + r';
    if q' < q {
      MulMono(q' + 1, q, d);
      MulStep(q', d);
      assert false;
    }
    if q < q' {
      MulMono(q + 1, q', d);
      MulStep(q, d);
      assert false;
    }
  }

  lemma MulMono(a: nat, b: nat, d: nat)
    requires a <= b
    ensures a * d <= b * d
  {
  }

  lemma MulStep(k: nat, d: nat)
    ensures (k + 1) * d == k * d + d
  {
  }

  lemma DivMod(a: nat, d: nat)
    requires 0 < d
    ensures a == (a / d) * d + a % d && a % d < d
  {
  }

  /** So many whole blocks and a rest. */
  lemma Split(a: nat, d: nat) returns (q: nat, r: nat)
    requires 0 < d
    ensures a == q * d + r && r < d
  {
    q, r := a / d, a % d;
    DivMod(a, d);
  }

  // ---------- sizes ----------

  /** A ciphertext size some plaintext has: empty, or no block that is all overhead. */
  predicate LegalCipherSize(g: Geometry, c: nat) {
    || c == 0
    || (HEADER_LEN < c && ((c - HEADER_LEN) % g.cipherBS == 0 || BlockOverhead(g) < (c - HEADER_LEN) % g.cipherBS))
  }

  lemma OverheadProduct(g: Geometry, q: nat)
    ensures BlockOverhead(g) * q + q * g.plainBS == q * g.cipherBS
    ensures BlockOverhead(g) * (q + 1) == BlockOverhead(g) * q + BlockOverhead(g)
  {
  }

  /** The block that holds the last of q full blocks and s more bytes. */
  lemma LastBlockNo(g: Geometry, q: nat, s: nat)
    requires s <= g.cipherBS && 0 < q * g.cipherBS + s
    ensures (q * g.cipherBS + s - 1) / g.cipherBS + 1 == if s == 0 then q else q + 1
  {
    if s == 0 {
      assert q > 0;
      MulStep(q - 1, g.cipherBS);
      DivModUnique(q * g.cipherBS - 1, g.cipherBS, q - 1, g.cipherBS - 1);
    } else {
      DivModUnique(q * g.cipherBS + s - 1, g.cipherBS, q, s - 1);
    }
  }

  lemma PlainSizeSteps(g: Geometry, size: nat, rounded: nat, blockCount: nat)
    requires HEADER_LEN < size
    requires var last := (size - HEADER_LEN) % g.cipherBS;
      rounded == if 0 < last <= BlockOverhead(g) then size - last + BlockOverhead(g) + 1 else size
    requires HEADER_LEN < rounded && blockCount == (rounded - 1 - HEADER_LEN) / g.cipherBS + 1
    ensures var overhead := BlockOverhead(g) * blockCount + HEADER_LEN;
      CipherSizeToPlainSize(g, size) == if overhead > rounded then 0 else rounded - overhead
  {
  }

  /** The body of c bytes after the header, split as q full blocks and r more bytes. */
  lemma PlainSizeOfBlocks(g: Geometry, q: nat, r: nat)
    requires r < g.cipherBS
    ensures CipherSizeToPlainSize(g, HEADER_LEN + q * g.cipherBS + r)
         == q * g.plainBS + (if r == 0 then 0 else if r <= BlockOverhead(g) then 1 else r - BlockOverhead(g))
  {
    var body, ov := q * g.cipherBS, BlockOverhead(g);
    if body + r > 0 {
      hide CipherSizeToPlainSize, BlockOverhead;
      assert 0 < ov < g.cipherBS by { OverheadIsLess(g); }
      var s := if 0 < r <= ov then ov + 1 else r;
      DivModUnique(body + r, g.cipherBS, q, r);
      LastBlockNo(g, q, s);
      OverheadProduct(g, q);
      PlainSizeSteps(g, HEADER_LEN + body + r, HEADER_LEN + body + s, if r == 0 then q else q + 1);
    }
  }

  lemma OverheadIsLess(g: Geometry)
    ensures 0 < BlockOverhead(g) < g.cipherBS
  {
  }

  lemma CipherSizeOfBlocks(g: Geometry, q: nat, r: nat)
    requires r < g.plainBS
    ensures PlainSizeToCipherSize(g, q * g.plainBS + r)
         == if q == 0 && r == 0 then 0 else HEADER_LEN + q * g.cipherBS + (if r == 0 then 0 else r + BlockOverhead(g))
  {
    if r > 0 {
      DivModUnique(q * g.plainBS + r - 1, g.plainBS, q, r - 1);
    } else if q > 0 {
      MulStep(q - 1, g.plainBS);
      MulStep(q - 1, g.cipherBS);
      DivModUnique(q * g.plainBS - 1, g.plainBS, q - 1, g.plainBS - 1);
    }
  }

  /** Every plaintext size survives the trip through its ciphertext size. */
  lemma PlainSizeRoundTrip(g: Geometry, p: nat)
    ensures CipherSizeToPlainSize(g, PlainSizeToCipherSize(g, p)) == p
    ensures LegalCipherSize(g, PlainSizeToCipherSize(g, p))
  {
    var q, r := Split(p, g.plainBS);
    CipherSizeOfBlocks(g, q, r);
    if p > 0 {
      var s := if r == 0 then 0 else r + BlockOverhead(g);
      PlainSizeOfBlocks(g, q, s);
      DivModUnique(q * g.cipherBS + s, g.cipherBS, q, s);
      if r == 0 { MulMono(1, q, g.cipherBS); }
    }
  }

  /** The reverse trip is exact on the legal sizes and on no others. */
  lemma CipherSizeRoundTrip(g: Geometry, c: nat)
    ensures PlainSizeToCipherSize(g, CipherSizeToPlainSize(g, c)) == c <==> LegalCipherSize(g, c)
  {
    if c > HEADER_LEN {
      hide PlainSizeToCipherSize, CipherSizeToPlainSize;
      var q, r := Split(c - HEADER_LEN, g.cipherBS);
      DivModUnique(c - HEADER_LEN, g.cipherBS, q, r);
      CipherBlocksRoundTrip(g, q, r);
    }
  }

  lemma CipherBlocksRoundTrip(g: Geometry, q: nat, r: nat)
    requires r < g.cipherBS && 0 < q * g.cipherBS + r
    ensures var c := HEADER_LEN + q * g.cipherBS + r;
            PlainSizeToCipherSize(g, CipherSizeToPlainSize(g, c)) == c <==> r == 0 || BlockOverhead(g) < r
  {
    PlainSizeOfBlocks(g, q, r);
    var s := if r == 0 then 0 else if r <= BlockOverhead(g) then 1 else r - BlockOverhead(g);
    if s < g.plainBS {
      CipherSizeOfBlocks(g, q, s);
      if q > 0 { MulMono(1, q, g.cipherBS); }
    } else {
      CipherSizeOfBlocks(g, q + 1, 0);
      MulStep(q, g.plainBS);
      MulStep(q, g.cipherBS);
    }
  }

  /** The two size functions are adjoint on non-empty files ... */
  lemma SizesAdjoint(g: Geometry, c: nat, p: nat)
    requires 0 < p
    ensures CipherSizeToPlainSize(g, c) <= p <==> c <= PlainSizeToCipherSize(g, p)
  {
    hide PlainSizeToCipherSize;
    NonEmptySize(g, p);
    if c > HEADER_LEN {
      hide CipherSizeToPlainSize;
      var q, r := Split(p, g.plainBS);
      var k, t := Split(c - HEADER_LEN, g.cipherBS);
      BlocksAdjoint(g, k, t, q, r);
    }
  }

  lemma NonEmptySize(g: Geometry, p: nat)
    requires 0 < p
    ensures HEADER_LEN < PlainSizeToCipherSize(g, p)
  {
  }

  lemma BlocksAdjoint(g: Geometry, k: nat, t: nat, q: nat, r: nat)
    requires t < g.cipherBS && r < g.plainBS && 0 < q * g.plainBS + r
    ensures CipherSizeToPlainSize(g, HEADER_LEN + k * g.cipherBS + t) <= q * g.plainBS + r
       <==> HEADER_LEN + k * g.cipherBS + t <= PlainSizeToCipherSize(g, q * g.plainBS + r)
  {
    PlainSizeOfBlocks(g, k, t);
    CipherSizeOfBlocks(g, q, r);
    if k < q {
      BlocksApart(g, k, q);
    } else if q < k {
      BlocksApart(g, q, k);
    }
  }

  lemma BlocksApart(g: Geometry, k: nat, q: nat)
    requires k < q
    ensures k * g.plainBS + g.plainBS <= q * g.plainBS
    ensures k * g.cipherBS + g.cipherBS <= q * g.cipherBS
  {
    MulMono(k + 1, q, g.cipherBS);
    MulMono(k + 1, q, g.plainBS);
    MulStep(k, g.cipherBS);
    MulStep(k, g.plainBS);
  }

  /** ... so a bigger ciphertext, legal or not, never reports a smaller plaintext. */
  lemma PlainSizeMonotone(g: Geometry, c1: nat, c2: nat)
    requires c1 <= c2
    ensures CipherSizeToPlainSize(g, c1) <= CipherSizeToPlainSize(g, c2)
  {
    var p := CipherSizeToPlainSize(g, c2);
    if p > 0 {
      SizesAdjoint(g, c2, p);
      SizesAdjoint(g, c1, p);
    } else if c2 > HEADER_LEN {
      var k, t := Split(c2 - HEADER_LEN, g.cipherBS);
      PlainSizeOfBlocks(g, k, t);
      if k > 0 { MulMono(1, k, g.plainBS); }
      assert false;
    }
  }

  /** With blocks of 4096 bytes and 32 more each: a header of 18 bytes, the contents, and 32 for every block begun. */
  lemma SizeFormat(p: nat)
    ensures PlainSizeToCipherSize(Geometry(4096, 4128), p) == if p == 0 then 0 else 18 + p + (p + 4095) / 4096 * 32
  {
    var q, r := Split(p, 4096);
    CipherSizeOfBlocks(Geometry(4096, 4128), q, r);
  }

  // ---------- 64 bits ----------

  const TWO_TO_THE_64: nat := 0x1_0000_0000_0000_0000

  lemma DivTimes(x: nat, a: nat, d: nat)
    requires a <= d && 0 < d
    ensures a * (x / d + 1) <= x + d
  {
    DivMod(x, d);
    MulStep(x / d, d);
    MulMono(a, d, x / d + 1);
    assert a * (x / d + 1) <= d * (x / d + 1) == (x / d) * d + d;
  }

  /**
   Blocks that at most double the data and stay below 4 GiB: nothing computed on the way to the
   ciphertext size of less than 2^62 bytes overflows, as every step only adds ...
   */
  lemma CipherSizeFits(g: Geometry, p: nat)
    requires g.cipherBS <= 2 * g.plainBS && g.cipherBS < 0x1_0000_0000 && p < TWO_TO_THE_64 / 4
    ensures PlainSizeToCipherSize(g, p) <= 2 * p + g.cipherBS + HEADER_LEN < TWO_TO_THE_64
  {
    hide PlainSizeToCipherSize;
    var q, r := Split(p, g.plainBS);
    BlocksFit(g, q, r);
  }

  lemma BlocksFit(g: Geometry, q: nat, r: nat)
    requires g.cipherBS <= 2 * g.plainBS && r < g.plainBS
    ensures PlainSizeToCipherSize(g, q * g.plainBS + r) <= 2 * (q * g.plainBS + r) + g.cipherBS + HEADER_LEN
  {
    hide PlainSizeToCipherSize;
    CipherSizeOfBlocks(g, q, r);
    AtMostDouble(q, g.cipherBS, g.plainBS);
  }

  lemma AtMostDouble(q: nat, a: nat, b: nat)
    requires a <= 2 * b
    ensures q * a <= 2 * (q * b)
  {
    MulMono(a, 2 * b, q);
  }

  /** ... and neither does the total overhead of a ciphertext of less than 2^63 bytes, rounded up as the code does. */
  lemma OverheadFits(g: Geometry, rounded: nat)
    requires g.cipherBS < 0x1_0000_0000 && HEADER_LEN < rounded <= TWO_TO_THE_64 / 2 + g.cipherBS
    ensures BlockOverhead(g) * (CipherOffToBlockNo(g, rounded - 1) + 1) + HEADER_LEN < TWO_TO_THE_64
  {
    DivTimes(rounded - 1 - HEADER_LEN, BlockOverhead(g), g.cipherBS);
  }

  // ---------- splitting a plaintext range into blocks ----------

  datatype IntraBlock = IntraBlock(blockNo: nat, skip: nat, length: nat)

  /** IsPartial: the block needs a read-modify-write. */
  predicate IsPartial(g: Geometry, b: IntraBlock) { b.skip > 0 || b.length < g.plainBS }

  /** blocks cut [off, off+len) at the block boundaries, in order, with nothing missing or repeated. */
  ghost predicate Splits(g: Geometry, off: nat, len: nat, blocks: seq<IntraBlock>) {
    && (len == 0 <==> blocks == [])
    && (forall i | 0 <= i < |blocks| ::
          && blocks[i].blockNo == off / g.plainBS + i
          && blocks[i].skip == (if i == 0 then off % g.plainBS else 0)
          && 0 < blocks[i].length <= g.plainBS - blocks[i].skip
          && (i + 1 < |blocks| ==> blocks[i].skip + blocks[i].length == g.plainBS))
    && (blocks != [] ==>
          var last := blocks[|blocks| - 1];
          BlockNoToPlainOff(g, last.blockNo) + last.skip + last.length == off + len)
  }

  method ExplodePlainRange(g: Geometry, off: nat, len: nat) returns (blocks: seq<IntraBlock>)
    ensures Splits(g, off, len, blocks)
  {
    blocks := [];
    var offset, length := off, len;
    while length > 0
      invariant offset + length == off + len && off <= offset && 0 <= length
      invariant Splits(g, off, offset - off, blocks)
      invariant blocks != [] && length > 0 ==> offset == BlockNoToPlainOff(g, PlainOffToBlockNo(g, off) + |blocks|)
    {
      var b := NextBlock(g, offset, length);
      SplitsExtend(g, off, offset - off, blocks, b);
      blocks := blocks + [b];
      offset := offset + b.length;
      length := length - b.length;
    }
  }

  function NextBlock(g: Geometry, offset: nat, length: nat): (b: IntraBlock)
    requires 0 < length
    ensures b.blockNo == offset / g.plainBS && b.skip == offset % g.plainBS
    ensures 0 < b.length <= length && b.length <= g.plainBS - b.skip
    ensures b.length < length ==> offset + b.length == BlockNoToPlainOff(g, b.blockNo + 1)
  {
    var blockNo := PlainOffToBlockNo(g, offset);
    DivMod(offset, g.plainBS);
    MulStep(blockNo, g.plainBS);
    var skip := offset - BlockNoToPlainOff(g, blockNo);
    IntraBlock(blockNo, skip, Min(length, g.plainBS - skip))
  }

  lemma SplitsExtend(g: Geometry, off: nat, len: nat, blocks: seq<IntraBlock>, b: IntraBlock)
    requires Splits(g, off, len, blocks)
    requires blocks != [] ==> off + len == (off / g.plainBS + |blocks|) * g.plainBS
    requires b.blockNo == (off + len) / g.plainBS
    requires b.skip == (off + len) % g.plainBS && 0 < b.length <= g.plainBS - b.skip
    ensures Splits(g, off, len + b.length, blocks + [b])
    ensures b.blockNo == off / g.plainBS + |blocks|
  {
    DivMod(off + len, g.plainBS);
    if blocks != [] {
      var last := blocks[|blocks| - 1];
      MulStep(last.blockNo, g.plainBS);
      DivModUnique(off + len, g.plainBS, off / g.plainBS + |blocks|, 0);
    }
  }

  function TotalLength(blocks: seq<IntraBlock>): nat {
    if blocks == [] then 0 else TotalLength(blocks[..|blocks| - 1]) + blocks[|blocks| - 1].length
  }

  /** The pieces of any split sum to the request. */
  lemma {:induction false} SplitCoversRange(g: Geometry, off: nat, len: nat, blocks: seq<IntraBlock>)
    requires Splits(g, off, len, blocks)
    ensures TotalLength(blocks) == len
    decreases |blocks|
  {
    if blocks != [] {
      var front, last := blocks[..|blocks| - 1], blocks[|blocks| - 1];
      DivMod(off, g.plainBS);
      if front != [] {
        MulStep(last.blockNo - 1, g.plainBS);
      }
      SplitCoversRange(g, off, len - last.length, front);
    }
  }

  /** The range fixes the split: how many blocks it touches, and then every block. */
  lemma SplitIsUnique(g: Geometry, off: nat, len: nat, blocks: seq<IntraBlock>)
    requires Splits(g, off, len, blocks) && 0 < len
    ensures |blocks| == (off + len - 1) / g.plainBS - off / g.plainBS + 1
  {
    var last := blocks[|blocks| - 1];
    DivModUnique(off + len - 1, g.plainBS, last.blockNo, last.skip + last.length - 1);
  }

  /** Joint ciphertext range of whole blocks: offset and length. */
  function JointCiphertextRange(g: Geometry, blocks: seq<IntraBlock>): (nat, int)
    requires blocks != []
  {
    var offset := BlockNoToCipherOff(g, blocks[0].blockNo);
    (offset, BlockNoToCipherOff(g, blocks[|blocks| - 1].blockNo) + g.cipherBS - offset)
  }

  lemma JointRangeOfSplit(g: Geometry, off: nat, len: nat, blocks: seq<IntraBlock>)
    requires Splits(g, off, len, blocks) && 0 < len
    ensures JointCiphertextRange(g, blocks) == (HEADER_LEN + (off / g.plainBS) * g.cipherBS, |blocks| * g.cipherBS)
  {
    var n0, m := off / g.plainBS, |blocks|;
    assert (n0 + (m - 1)) * g.cipherBS + g.cipherBS == n0 * g.cipherBS + m * g.cipherBS;
  }

  /** A request of at most m whole blocks touches at most one block more, wherever it starts. */
  lemma SplitBlockCount(g: Geometry, off: nat, len: nat, blocks: seq<IntraBlock>, m: nat)
    requires Splits(g, off, len, blocks) && len <= m * g.plainBS
    ensures |blocks| <= m + 1
  {
    hide Splits;
    if blocks != [] {
      var n0 := off / g.plainBS;
      DivMod(off, g.plainBS);
      LastBlockStart(g, off, len, blocks);
      Distribute(n0, m, g.plainBS);
      MulLess(n0 + |blocks| - 1, n0 + m + 1, g.plainBS);
    }
  }

  lemma MulLess(a: nat, b: nat, d: nat)
    requires a * d < b * d
    ensures a < b
  {
    if b <= a {
      MulMono(b, a, d);
    }
  }

  lemma Distribute(a: nat, b: nat, d: nat)
    ensures (a + b + 1) * d == a * d + b * d + d
  {
  }

  lemma LastBlockStart(g: Geometry, off: nat, len: nat, blocks: seq<IntraBlock>)
    requires Splits(g, off, len, blocks) && blocks != []
    ensures (off / g.plainBS + |blocks| - 1) * g.plainBS < off + len
  {
  }
}
