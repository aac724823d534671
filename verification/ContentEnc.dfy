/**
 Block encryption of file content (internal/contentenc/content.go). The cipher is any AEAD
 that meets AeadContract; the plaintext block size and the nonce length stay symbolic.
 */
module ContentEnc {
  import opened Bytes
  import opened Offsets

  const AUTH_TAG_LEN: nat := 16
  const HEADER_ID_LEN: nat := 16
  const MAX_KERNEL_WRITE: nat := 128 * 1024

  // ---------- the cipher ----------

  /** seal(nonce, plaintext, ad) and open(nonce, ciphertext, ad). */
  datatype Aead = Aead(seal: (bytes, bytes, bytes) -> bytes, open: (bytes, bytes, bytes) -> Option<bytes>)

  /** open accepts exactly what seal makes, under the same nonce and associated data. */
  ghost predicate AeadContract(a: Aead) {
    && (forall n, p, ad :: |a.seal(n, p, ad)| == |p| + AUTH_TAG_LEN)
    && (forall n, c, ad, p :: a.open(n, c, ad) == Some(p) <==> c == a.seal(n, p, ad))
  }

  /** Zeros appended to a sealed block make it fail to authenticate. */
  ghost predicate RejectsZeroExtension(a: Aead) {
    forall n, p, ad, k: nat :: 0 < k ==> a.open(n, a.seal(n, p, ad) + Zeros(k), ad).None?
  }

  /** An AEAD with no secrecy, to show that the contract can be met. */
  function ToyAead(): Aead {
    Aead((n, p, ad) => p + ToyTag(),
         (n, c, ad) => if |c| >= AUTH_TAG_LEN && c[|c| - AUTH_TAG_LEN..] == ToyTag()
                       then Some(c[..|c| - AUTH_TAG_LEN]) else None)
  }

  function ToyTag(): bytes { seq(AUTH_TAG_LEN, _ => 1) }

  lemma ToyAeadIsAead()
    ensures AeadContract(ToyAead()) && RejectsZeroExtension(ToyAead())
  {
    var a := ToyAead();
    forall n: bytes, p: bytes, ad: bytes, k: nat | 0 < k
      ensures a.open(n, a.seal(n, p, ad) + Zeros(k), ad).None?
    {
      var c := a.seal(n, p, ad) + Zeros(k);
      assert c[|c| - AUTH_TAG_LEN..][AUTH_TAG_LEN - 1] == 0;
    }
    forall n: bytes, c: bytes, ad: bytes, p: bytes
      ensures a.open(n, c, ad) == Some(p) <==> c == a.seal(n, p, ad)
    {
      if a.open(n, c, ad) == Some(p) {
        assert c == c[..|c| - AUTH_TAG_LEN] + c[|c| - AUTH_TAG_LEN..];
      }
      if c == a.seal(n, p, ad) {
        assert c[..|c| - AUTH_TAG_LEN] == p;
        assert c[|c| - AUTH_TAG_LEN..] == ToyTag();
      }
    }
  }

  // ---------- the configuration ----------

  datatype RawContentEnc = ContentEnc(plainBS: nat, ivLen: nat, aead: Aead)

  ghost predicate ValidContentEnc(be: RawContentEnc) {
    0 < be.plainBS && MAX_KERNEL_WRITE % be.plainBS == 0 && 0 < be.ivLen && AeadContract(be.aead)
  }

  type ContentEnc = be: RawContentEnc | ValidContentEnc(be) ghost witness ToyContentEnc()

  ghost function ToyContentEnc(): (be: RawContentEnc)
    ensures ValidContentEnc(be) && RejectsZeroExtension(be.aead)
  {
    ToyAeadIsAead();
    ContentEnc(4096, 16, ToyAead())
  }

  type FileID = id: bytes | |id| == HEADER_ID_LEN witness Zeros(HEADER_ID_LEN)

  function CipherBS(be: ContentEnc): nat { be.plainBS + be.ivLen + AUTH_TAG_LEN }

  function Geo(be: ContentEnc): Geometry { Geometry(be.plainBS, CipherBS(be)) }

  function Overhead(be: ContentEnc): nat { BlockOverhead(Geo(be)) }

  /** The number of the block that holds plaintext offset off. */
  function BlockNo(be: ContentEnc, off: nat): nat { PlainOffToBlockNo(Geo(be), off) }

  /** How far offset off is into its block. */
  function BlockRest(be: ContentEnc, off: nat): (r: nat)
    ensures r < be.plainBS
  {
    off % be.plainBS
  }

  predicate Aligned(be: ContentEnc, off: nat) { BlockRest(be, off) == 0 }

  /** Where block n starts: in the plaintext, and in the ciphertext after the header. */
  function POff(be: ContentEnc, n: nat): nat { BlockNoToPlainOff(Geo(be), n) }

  function COff(be: ContentEnc, n: nat): nat { n * CipherBS(be) }

  lemma OffAdd(be: ContentEnc, m: nat, n: nat)
    ensures POff(be, m + n) == POff(be, m) + POff(be, n)
    ensures COff(be, m + n) == COff(be, m) + COff(be, n)
    ensures POff(be, 0) == 0 && POff(be, 1) == be.plainBS
    ensures COff(be, 0) == 0 && COff(be, 1) == CipherBS(be)
  {
  }

  lemma OffMono(be: ContentEnc, m: nat, n: nat)
    requires m <= n
    ensures POff(be, m) <= POff(be, n) && COff(be, m) <= COff(be, n)
    ensures m < n ==> POff(be, m) + be.plainBS <= POff(be, n) && COff(be, m) + CipherBS(be) <= COff(be, n)
    ensures COff(be, n) - POff(be, n) == n * Overhead(be)
    ensures COff(be, m) - POff(be, m) <= COff(be, n) - POff(be, n)
  {
    MulMono(m, n, be.plainBS);
    MulMono(m, n, CipherBS(be));
    MulMono(m, n, Overhead(be));
    if m < n { BlocksApart(Geo(be), m, n); }
  }

  /** Sizes of the two request buffers. */
  function CReqSize(be: ContentEnc): nat { MAX_KERNEL_WRITE / be.plainBS * CipherBS(be) + CipherBS(be) }

  function PReqSize(be: ContentEnc): nat { MAX_KERNEL_WRITE + be.plainBS }

  /** No request within the kernel limit outgrows its buffers. */
  lemma RequestFitsBuffers(be: ContentEnc, off: nat, len: nat, blocks: seq<IntraBlock>)
    requires Splits(Geo(be), off, len, blocks) && len <= MAX_KERNEL_WRITE
    ensures COff(be, |blocks|) <= CReqSize(be) && POff(be, |blocks|) <= PReqSize(be)
  {
    var m := MAX_KERNEL_WRITE / be.plainBS;
    DivMod(MAX_KERNEL_WRITE, be.plainBS);
    SplitBlockCount(Geo(be), off, len, blocks, m);
    MulMono(|blocks|, m + 1, CipherBS(be));
    MulMono(|blocks|, m + 1, be.plainBS);
    MulStep(m, CipherBS(be));
    MulStep(m, be.plainBS);
  }

  // ---------- one block ----------

  function BigEndian(n: nat, width: nat): (r: bytes)
    ensures |r| == width
  {
    if width == 0 then [] else BigEndian(n / 256, width - 1) + [(n % 256) as byte]
  }

  function ConcatAD(blockNo: nat, fileID: FileID): bytes { BigEndian(blockNo, 8) + fileID }

  function Pow256(w: nat): nat { if w == 0 then 1 else 256 * Pow256(w - 1) }

  lemma {:induction false} BigEndianInjective(m: nat, n: nat, w: nat)
    requires m < Pow256(w) && n < Pow256(w) && BigEndian(m, w) == BigEndian(n, w)
    ensures m == n
  {
    if w > 0 {
      var a, b := BigEndian(m / 256, w - 1), BigEndian(n / 256, w - 1);
      assert a == BigEndian(m, w)[..w - 1] && b == BigEndian(n, w)[..w - 1];
      assert BigEndian(m, w)[w - 1] == (m % 256) as byte;
      assert BigEndian(n, w)[w - 1] == (n % 256) as byte;
      BigEndianInjective(m / 256, n / 256, w - 1);
    }
  }

  /** Associated data tells every (64-bit block number, file ID) pair apart. */
  lemma ConcatADInjective(m: nat, a: FileID, n: nat, b: FileID)
    requires m < 0x1_0000_0000_0000_0000 && n < 0x1_0000_0000_0000_0000
    ensures ConcatAD(m, a) == ConcatAD(n, b) <==> m == n && a == b
  {
    if ConcatAD(m, a) == ConcatAD(n, b) {
      assert ConcatAD(m, a)[..8] == BigEndian(m, 8) && ConcatAD(n, b)[..8] == BigEndian(n, 8);
      assert ConcatAD(m, a)[8..] == a && ConcatAD(n, b)[8..] == b;
      assert Pow256(8) == 0x1_0000_0000_0000_0000 by {
        assert Pow256(4) == 0x1_0000_0000;
        assert Pow256(8) == 256 * (256 * (256 * (256 * Pow256(4))));
      }
      BigEndianInjective(m, n, 8);
    }
  }

  function DoEncryptBlock(be: ContentEnc, plain: bytes, blockNo: nat, fileID: FileID, nonce: bytes): bytes
    requires |nonce| == be.ivLen
  {
    if plain == [] then plain else nonce + be.aead.seal(nonce, plain, ConcatAD(blockNo, fileID))
  }

  function DecryptBlock(be: ContentEnc, cipher: bytes, blockNo: nat, fileID: FileID): Option<bytes> {
    if cipher == [] then Some([])
    else if cipher == Zeros(CipherBS(be)) then Some(Zeros(be.plainBS))
    else if |cipher| < be.ivLen then None
    else if cipher[..be.ivLen] == Zeros(be.ivLen) then None
    else be.aead.open(cipher[..be.ivLen], cipher[be.ivLen..], ConcatAD(blockNo, fileID))
  }

  ghost predicate SealedUnder(be: ContentEnc, nonce: bytes, plain: bytes, blockNo: nat, fileID: FileID, cipher: bytes) {
    && |nonce| == be.ivLen && nonce != Zeros(be.ivLen)
    && cipher == nonce + be.aead.seal(nonce, plain, ConcatAD(blockNo, fileID))
  }

  /** What DecryptBlock accepts: nothing, a hole, or a block sealed under this very number and ID. */
  lemma DecryptBlockAccepts(be: ContentEnc, cipher: bytes, blockNo: nat, fileID: FileID, plain: bytes)
    ensures DecryptBlock(be, cipher, blockNo, fileID) == Some(plain) <==>
      || (cipher == [] && plain == [])
      || (cipher == Zeros(CipherBS(be)) && plain == Zeros(be.plainBS))
      || (exists nonce :: SealedUnder(be, nonce, plain, blockNo, fileID, cipher))
  {
    if nonce :| SealedUnder(be, nonce, plain, blockNo, fileID, cipher) {
      assert cipher[..be.ivLen] == nonce;
      assert Zeros(CipherBS(be))[..be.ivLen] == Zeros(be.ivLen);
      assert cipher[be.ivLen..] == be.aead.seal(nonce, plain, ConcatAD(blockNo, fileID));
    }
    if DecryptBlock(be, cipher, blockNo, fileID) == Some(plain) && cipher != [] && cipher != Zeros(CipherBS(be)) {
      assert SealedUnder(be, cipher[..be.ivLen], plain, blockNo, fileID, cipher);
    }
  }

  /** The number n as eight bytes, the most significant first. */
  lemma BigEndianIs(n: nat, s: bytes)
    requires |s| == 8
    requires n == s[0] as nat * 0x100_0000_0000_0000 + s[1] as nat * 0x1_0000_0000_0000
                + s[2] as nat * 0x100_0000_0000 + s[3] as nat * 0x1_0000_0000
                + s[4] as nat * 0x100_0000 + s[5] as nat * 0x1_0000 + s[6] as nat * 0x100 + s[7] as nat
    ensures BigEndian(n, 8) == s
  {
    var n7 := s[0] as nat;
    var n6 := n7 * 256 + s[1] as nat;
    var n5 := n6 * 256 + s[2] as nat;
    var n4 := n5 * 256 + s[3] as nat;
    var n3 := n4 * 256 + s[4] as nat;
    var n2 := n3 * 256 + s[5] as nat;
    var n1 := n2 * 256 + s[6] as nat;
    LastByte(0, n7, s, 0);
    LastByte(n7, n6, s, 1);
    LastByte(n6, n5, s, 2);
    LastByte(n5, n4, s, 3);
    LastByte(n4, n3, s, 4);
    LastByte(n3, n2, s, 5);
    LastByte(n2, n1, s, 6);
    LastByte(n1, n, s, 7);
    assert s[..8] == s;
  }

  lemma LastByte(high: nat, n: nat, s: bytes, w: nat)
    requires w < |s| && n == high * 256 + s[w] as nat && BigEndian(high, w) == s[..w]
    ensures BigEndian(n, w + 1) == s[..w + 1]
  {
    assert n / 256 == high && n % 256 == s[w] as nat;
    assert s[..w + 1] == s[..w] + [s[w]];
  }

  /**
   The format of a block: the nonce, then the plaintext sealed with associated data of 24 bytes, the number of the
   block in eight bytes, the most significant first, and the file ID. That is what is written, and what is read.
   */
  lemma BlockFormat(be: ContentEnc, nonce: bytes, plain: bytes, blockNo: nat, fileID: FileID, ad: bytes)
    requires |ad| == 24 && ad[8..] == fileID
    requires blockNo == ad[0] as nat * 0x100_0000_0000_0000 + ad[1] as nat * 0x1_0000_0000_0000
                      + ad[2] as nat * 0x100_0000_0000 + ad[3] as nat * 0x1_0000_0000
                      + ad[4] as nat * 0x100_0000 + ad[5] as nat * 0x1_0000 + ad[6] as nat * 0x100 + ad[7] as nat
    requires |nonce| == be.ivLen && nonce != Zeros(be.ivLen)
    ensures DecryptBlock(be, nonce + be.aead.seal(nonce, plain, ad), blockNo, fileID) == Some(plain)
    ensures plain != [] ==>
      DoEncryptBlock(be, plain, blockNo, fileID, nonce) == nonce + be.aead.seal(nonce, plain, ad)
    ensures |nonce + be.aead.seal(nonce, plain, ad)| == be.ivLen + |plain| + 16
  {
    BigEndianIs(blockNo, ad[..8]);
    assert ad == ad[..8] + ad[8..];
    var cipher := nonce + be.aead.seal(nonce, plain, ad);
    assert SealedUnder(be, nonce, plain, blockNo, fileID, cipher);
    DecryptBlockAccepts(be, cipher, blockNo, fileID, plain);
  }

  /** Encryption under a non-zero nonce is undone by decryption under the same number and ID. */
  lemma BlockRoundTrip(be: ContentEnc, plain: bytes, blockNo: nat, fileID: FileID, nonce: bytes)
    requires |nonce| == be.ivLen && nonce != Zeros(be.ivLen)
    ensures var c := DoEncryptBlock(be, plain, blockNo, fileID, nonce);
      DecryptBlock(be, c, blockNo, fileID) == Some(plain) && (plain != [] ==> |c| == |plain| + Overhead(be))
  {
    var c := DoEncryptBlock(be, plain, blockNo, fileID, nonce);
    if plain != [] {
      assert SealedUnder(be, nonce, plain, blockNo, fileID, c);
    }
    DecryptBlockAccepts(be, c, blockNo, fileID, plain);
  }

  lemma DecryptBlockLength(be: ContentEnc, cipher: bytes, blockNo: nat, fileID: FileID)
    requires cipher != [] && DecryptBlock(be, cipher, blockNo, fileID).Some?
    ensures |cipher| == |DecryptBlock(be, cipher, blockNo, fileID).value| + Overhead(be)
  {
    var p := DecryptBlock(be, cipher, blockNo, fileID).value;
    DecryptBlockAccepts(be, cipher, blockNo, fileID, p);
  }

  // ---------- many blocks ----------

  function Join(a: Option<bytes>, b: Option<bytes>): Option<bytes> {
    if a.Some? && b.Some? then Some(a.value + b.value) else None
  }

  lemma JoinAssoc(a: Option<bytes>, b: Option<bytes>, c: Option<bytes>)
    ensures Join(Join(a, b), c) == Join(a, Join(b, c))
    ensures Join(Some([]), a) == a && Join(a, Some([])) == a
  {
    if a.Some? && b.Some? && c.Some? {
      assert (a.value + b.value) + c.value == a.value + (b.value + c.value);
    }
    if a.Some? { assert [] + a.value == a.value && a.value + [] == a.value; }
  }

  /** What a run of ciphertext blocks, the first of them numbered blockNo, decrypts to. */
  function PlainOf(be: ContentEnc, cipher: bytes, blockNo: nat, fileID: FileID): Option<bytes>
    decreases |cipher|
  {
    if cipher == [] then Some([])
    else
      var k := Min(|cipher|, CipherBS(be));
      Join(DecryptBlock(be, cipher[..k], blockNo, fileID), PlainOf(be, cipher[k..], blockNo + 1, fileID))
  }

  lemma PlainOfUnfold(be: ContentEnc, cipher: bytes, blockNo: nat, fileID: FileID)
    ensures cipher == [] ==> PlainOf(be, cipher, blockNo, fileID) == Some([])
    ensures cipher != [] ==>
      var k := Min(|cipher|, CipherBS(be));
      && 0 < k <= |cipher|
      && PlainOf(be, cipher, blockNo, fileID)
      == Join(DecryptBlock(be, cipher[..k], blockNo, fileID), PlainOf(be, cipher[k..], blockNo + 1, fileID))
  {
    hide DecryptBlock;
  }

  method DecryptBlocks(be: ContentEnc, cipher: bytes, firstBlockNo: nat, fileID: FileID)
    returns (plain: bytes, ok: bool)
    ensures ok <==> PlainOf(be, cipher, firstBlockNo, fileID).Some?
    ensures ok ==> plain == PlainOf(be, cipher, firstBlockNo, fileID).value
  {
    hide PlainOf, DecryptBlock, CipherBS;
    plain, ok := [], true;
    var cBuf, blockNo := cipher, firstBlockNo;
    JoinAssoc(PlainOf(be, cBuf, blockNo, fileID), None, None);
    while cBuf != []
      invariant ok
      invariant PlainOf(be, cipher, firstBlockNo, fileID) == Join(Some(plain), PlainOf(be, cBuf, blockNo, fileID))
      decreases |cBuf|
    {
      PlainOfUnfold(be, cBuf, blockNo, fileID);
      var k := Min(|cBuf|, CipherBS(be));
      var pBlock := DecryptBlock(be, cBuf[..k], blockNo, fileID);
      if pBlock.None? {
        ok := false;
        break;
      }
      JoinAssoc(Some(plain), pBlock, PlainOf(be, cBuf[k..], blockNo + 1, fileID));
      plain := plain + pBlock.value;
      cBuf := cBuf[k..];
      blockNo := blockNo + 1;
    }
    PlainOfUnfold(be, [], blockNo, fileID);
    JoinAssoc(Some(plain), None, None);
  }

  /** Decryption cuts at block boundaries. */
  lemma {:induction false} PlainOfSplit(be: ContentEnc, c: bytes, d: bytes, n: nat, id: FileID, k: nat)
    requires |c| == COff(be, k)
    ensures PlainOf(be, c + d, n, id) == Join(PlainOf(be, c, n, id), PlainOf(be, d, n + k, id))
    ensures PlainOf(be, c, n, id).Some? ==> |PlainOf(be, c, n, id).value| == POff(be, k)
    decreases k
  {
    hide DecryptBlock, POff, COff;
    OffAdd(be, 0, 0);
    if k == 0 {
      assert c + d == d;
      JoinAssoc(PlainOf(be, d, n, id), None, None);
    } else {
      var b := CipherBS(be);
      OffAdd(be, k - 1, 1);
      PlainOfStep(be, c, n, id);
      PlainOfStep(be, c + d, n, id);
      assert (c + d)[..b] == c[..b] && (c + d)[b..] == c[b..] + d;
      PlainOfSplit(be, c[b..], d, n + 1, id, k - 1);
      JoinAssoc(DecryptBlock(be, c[..b], n, id), PlainOf(be, c[b..], n + 1, id), PlainOf(be, d, n + k, id));
    }
  }

  lemma PlainOfStep(be: ContentEnc, c: bytes, n: nat, id: FileID)
    requires CipherBS(be) <= |c|
    ensures var b := CipherBS(be);
      PlainOf(be, c, n, id) == Join(DecryptBlock(be, c[..b], n, id), PlainOf(be, c[b..], n + 1, id))
    ensures var x := DecryptBlock(be, c[..CipherBS(be)], n, id); x.Some? ==> |x.value| == be.plainBS
  {
    if DecryptBlock(be, c[..CipherBS(be)], n, id).Some? {
      DecryptBlockLength(be, c[..CipherBS(be)], n, id);
    }
  }

  /** A body of k full blocks and r < cipherBS more bytes decrypts to k full blocks and the rest of r. */
  lemma PlainOfLength(be: ContentEnc, c: bytes, n: nat, id: FileID, k: nat, r: nat)
    requires |c| == COff(be, k) + r && r < CipherBS(be) && PlainOf(be, c, n, id).Some?
    ensures r == 0 || Overhead(be) <= r
    ensures |PlainOf(be, c, n, id).value| == POff(be, k) + (if r == 0 then 0 else r - Overhead(be))
  {
    hide DecryptBlock, POff, COff;
    var head, tail := c[..COff(be, k)], c[COff(be, k)..];
    assert c == head + tail;
    PlainOfSplit(be, head, tail, n, id, k);
    if r > 0 {
      OneBlock(be, tail, n + k, id);
      DecryptBlockLength(be, tail, n + k, id);
    }
  }

  lemma OneBlock(be: ContentEnc, c: bytes, n: nat, id: FileID)
    requires c != [] && |c| <= CipherBS(be)
    ensures PlainOf(be, c, n, id) == DecryptBlock(be, c, n, id)
  {
    hide DecryptBlock;
    assert c[..|c|] == c && c[|c|..] == [];
    JoinAssoc(DecryptBlock(be, c, n, id), None, None);
  }

  /** A hole of whole blocks reads as zeros, whatever its position and file ID. */
  lemma {:induction false} HolesAreZero(be: ContentEnc, n: nat, id: FileID, k: nat)
    ensures PlainOf(be, Zeros(COff(be, k)), n, id) == Some(Zeros(POff(be, k)))
    decreases k
  {
    hide POff, COff;
    OffAdd(be, 0, 0);
    if k > 0 {
      var b := CipherBS(be);
      OffAdd(be, k - 1, 1);
      assert Zeros(COff(be, k)) == Zeros(b) + Zeros(COff(be, k - 1));
      HolesAreZero(be, n + 1, id, k - 1);
      OneBlock(be, Zeros(b), n, id);
      PlainOfSplit(be, Zeros(b), Zeros(COff(be, k - 1)), n, id, 1);
      assert Zeros(be.plainBS) + Zeros(POff(be, k - 1)) == Zeros(POff(be, k));
    }
  }
}
