/**
 Random access to an encrypted file through one open handle (file.go): read, write, grow,
 shrink. The plaintext it stands for is DiskImage.Plain of the backing bytes.
 */
module EncFile {
  import opened Bytes
  import opened ByteFile
  import opened Offsets
  import opened ContentEnc
  import opened BlockEncryption
  import opened FileHeader
  import opened DiskImage

  const MAX_INT64: nat := 0x7FFF_FFFF_FFFF_FFFF

  /** The file the operating system keeps. */
  class BackingFile {
    var data: bytes

    constructor (content: bytes)
      ensures data == content
    {
      data := content;
    }

    /** A read past the end is short; a short read reports end of file. */
    method ReadAt(off: nat, len: nat) returns (buf: bytes, eof: bool)
      ensures buf == Clip(data, off, off + len)
      ensures eof <==> |buf| < len
    {
      buf := Clip(data, off, off + len);
      eof := |buf| < len;
    }

    method WriteAt(buf: bytes, off: nat)
      modifies this
      ensures data == Overlay(old(data), off, buf)
    {
      data := Overlay(data, off, buf);
    }

    method Ftruncate(size: nat)
      modifies this
      ensures data == Resize(old(data), size)
    {
      data := Resize(data, size);
    }
  }

  datatype IDResult = FoundID(id: FileID) | EOF | BadHeader(error: HeaderError)

  /** One byte more than the header is read, so a file that is only a header counts as empty. */
  method ReadFileID(fd: BackingFile) returns (r: IDResult)
    ensures r.EOF? <==> |fd.data| <= HEADER_LEN
    ensures |fd.data| > HEADER_LEN ==>
      match ParseHeader(fd.data[..HEADER_LEN])
      case Parsed(id) => r == FoundID(id)
      case Rejected(e) => r == BadHeader(e)
  {
    var buf, eof := fd.ReadAt(0, HEADER_LEN + 1);
    if eof {
      return EOF;
    }
    assert buf[..HEADER_LEN] == fd.data[..HEADER_LEN];
    match ParseHeader(buf[..HEADER_LEN])
    case Parsed(id) => r := FoundID(id);
    case Rejected(e) => r := BadHeader(e);
  }

  /** Random file IDs are taken to be non-zero. */
  method RandomID() returns (id: FileID)
    ensures id != Zeros(HEADER_ID_LEN)
  {
    ghost var one: FileID := seq(HEADER_ID_LEN, _ => 1);
    assert one[0] == 1;
    id :| id != Zeros(HEADER_ID_LEN);
  }

  method CreateHeader(fd: BackingFile) returns (id: FileID)
    modifies fd
    ensures HEADER_LEN <= |fd.data| && ParseHeader(fd.data[..HEADER_LEN]).Parsed? && HeaderID(fd.data) == id
    ensures fd.data == Overlay(old(fd.data), 0, Pack(id))
  {
    id := RandomID();
    ParseInvertsPack(Pack(id), id);
    fd.WriteAt(Pack(id), 0);
    OverlayBytes(old(fd.data), 0, Pack(id));
    assert fd.data[..HEADER_LEN] == Pack(id);
    assert Pack(id)[HEADER_VERSION_LEN..] == id;
  }

  /** Every ciphertext offset a request computes fits 64 bits. */
  predicate NoWrap(be: ContentEnc, off: nat, len: nat) {
    0 < len && HEADER_LEN + COff(be, BlockNo(be, off + len - 1) + 1) < 0x1_0000_0000_0000_0000
  }

  /** Where the block that holds plaintext offset off starts in the backing file. */
  function CipherStart(be: ContentEnc, off: nat): nat { HEADER_LEN + COff(be, BlockNo(be, off)) }

  /** The requested part of the decrypted blocks, which may end early. */
  function Crop(plaintext: bytes, skip: nat, length: nat): bytes {
    var lenHave, lenWant := |plaintext|, skip + length;
    if lenHave > lenWant then plaintext[skip..lenWant]
    else if lenHave > skip then plaintext[skip..lenHave]
    else []
  }

  lemma SliceOfSlice(p: bytes, lo: nat, hi: nat, a: nat, b: nat)
    requires a <= b && lo + b <= hi <= |p|
    ensures p[lo..hi][a..b] == p[lo + a..lo + b]
  {
    var s := p[lo..hi];
    forall i | 0 <= i < b - a ensures s[a..b][i] == p[lo + a..lo + b][i] {
      assert s[a..b][i] == s[a + i] == p[lo + a + i];
    }
  }

  lemma CropIsClip(p: bytes, lo: nat, hi: nat, skip: nat, length: nat)
    requires lo + skip + length <= hi && 0 < length
    ensures Crop(Clip(p, lo, hi), skip, length) == Clip(p, lo + skip, lo + skip + length)
    ensures |Clip(p, lo, hi)| <= hi - lo
    ensures Clip(p, lo, hi) == [] ==> Clip(p, lo + skip, lo + skip + length) == []
  {
    if lo + skip < |p| {
      var c, top := Clip(p, lo, hi), Min(lo + skip + length, |p|);
      assert c == p[lo..Min(hi, |p|)] && Crop(c, skip, length) == c[skip..top - lo];
      SliceOfSlice(p, lo, Min(hi, |p|), skip, top - lo);
    }
  }

  /** What a client can tell about a handle: the plaintext, and whether the file ID is cached. */
  datatype View = View(plain: bytes, cached: bool)

  /** With a plaintext of at most size bytes, no ciphertext offset leaves the positive int64 range. */
  predicate Addressable(be: ContentEnc, size: nat) {
    CipherStart(be, size) + CipherBS(be) <= MAX_INT64
  }

  /** Files of up to 2^62 bytes of plaintext, in blocks of 4096 and 16-byte nonces, are addressable. */
  lemma AddressableFiles(be: ContentEnc, size: nat)
    requires be.plainBS == 4096 && be.ivLen == 16 && size <= 0x4000_0000_0000_0000
    ensures Addressable(be, size)
  {
  }

  // What each operation does to the view of a handle. Requests are of at most 128 KiB.

  function ReadView(v: View, length: nat): View {
    View(v.plain, v.cached || (length <= 131072 && v.plain != []))
  }

  function WriteView(v: View, off: nat, data: bytes): View {
    if |data| <= 131072 then View(Overlay(v.plain, off, data), true) else v
  }

  function TruncateView(be: ContentEnc, v: View, n: nat): View {
    var aligned := Aligned(be, |v.plain|) && Aligned(be, n);
    View(Resize(v.plain, n),
         v.cached || (if n <= |v.plain| then n != |v.plain| && !Aligned(be, n) else v.plain == [] || !aligned))
  }

  class OpenFile {
    const be: ContentEnc
    const numCPU: nat
    const fd: BackingFile
    var ID: Option<FileID>

    constructor (be: ContentEnc, fd: BackingFile, numCPU: nat)
      ensures this.be == be && this.fd == fd && this.numCPU == numCPU && ID == None
    {
      this.be, this.fd, this.numCPU, ID := be, fd, numCPU, None;
    }

    /** Readable, and a cached ID agrees with the header of a file that has one. */
    ghost predicate Coherent()
      reads this, fd
    {
      Intact(be, fd.data) && (ID.Some? && fd.data != [] ==> HeaderID(fd.data) == ID.value)
    }

    /** An ID is cached for a file that has lost its header. */
    ghost predicate Stale()
      reads this, fd
    {
      fd.data == [] && ID.Some?
    }

    ghost predicate Valid()
      reads this, fd
    {
      Coherent() && !Stale()
    }

    ghost function Contents(): bytes
      requires Intact(be, fd.data)
      reads this, fd
    {
      Plain(be, fd.data)
    }

    ghost function ViewOf(): View
      requires Intact(be, fd.data)
      reads this, fd
    {
      View(Contents(), ID.Some?)
    }

    /** Take the file ID from the header unless it is cached; an empty file has none. */
    method LoadID() returns (known: bool)
      requires Coherent()
      modifies this`ID
      ensures Coherent() && (old(ID).Some? ==> ID == old(ID))
      ensures known == ID.Some? == (old(ID).Some? || |fd.data| > HEADER_LEN)
    {
      if ID.None? {
        var r := ReadFileID(fd);
        if r.FoundID? {
          ParsedID(fd.data);
          ID := Some(r.id);
        }
      }
      known := ID.Some?;
    }

    method DoRead(dst: bytes, off: nat, length: nat) returns (out: bytes, ok: bool)
      requires Coherent() && 0 < length <= MAX_KERNEL_WRITE && NoWrap(be, off, length)
      modifies this`ID
      ensures Coherent() && (old(ID).Some? ==> ID == old(ID))
      ensures ID.Some? <==> old(ID).Some? || |fd.data| > HEADER_LEN
      ensures ok <==> ID.Some? && CipherStart(be, off) <= MAX_INT64
      ensures ok ==> out == dst + Clip(Contents(), off, off + length)
    {
      hide PlainOf, DecryptBlock, COff, POff, AeadContract, Splits, BodyHolds, Intact, NoWrap, CipherStart, Crop, Clip,
           BlockNo, JointCiphertextRange, CReqSize, PReqSize, HeaderID;
      out, ok := [], false;
      var known := LoadID();
      if !known {
        return;
      }
      var blocks := ExplodePlainRange(Geo(be), off, length);
      RangeOfBlocks(be, off, length, blocks);
      ReadAnswer(be, fd.data, ID.value, off, length, |blocks|, blocks[0].skip);
      var (alignedOffset, alignedLength) := JointCiphertextRange(Geo(be), blocks);
      if alignedOffset > MAX_INT64 {
        return;
      }
      var skip := blocks[0].skip;
      assert alignedLength <= CReqSize(be);
      var ciphertext, _ := fd.ReadAt(alignedOffset, alignedLength);
      if ciphertext == [] {
        return dst, true;
      }
      var plaintext, okDec := DecryptBlocks(be, ciphertext, blocks[0].blockNo, ID.value);
      if !okDec {
        return;
      }
      assert |plaintext| <= PReqSize(be);
      out, ok := dst + Crop(plaintext, skip, length), true;
    }

    /** A file without content gets a fresh header, unless an ID is cached already. */
    method LoadOrCreateID()
      requires Coherent()
      modifies this`ID, fd
      ensures Coherent() && ID.Some? && Contents() == old(Contents())
      ensures Stale() == old(Stale()) && (!Stale() ==> HEADER_LEN <= |fd.data|)
    {
      var known := LoadID();
      if !known {
        var id := CreateHeader(fd);
        ID := Some(id);
        FreshHeader(be, old(fd.data), fd.data, id);
      }
    }

    /** The blocks to encrypt: the new bytes, merged into what a partial block held before. */
    method GatherBlocks(blocks: seq<IntraBlock>, data: bytes, off: nat) returns (toEncrypt: seq<bytes>, ok: bool)
      requires Coherent() && ID.Some?
      requires 0 < |data| <= MAX_KERNEL_WRITE && NoWrap(be, off, |data|) && Splits(Geo(be), off, |data|, blocks)
      modifies this`ID
      ensures ID == old(ID)
      ensures CipherStart(be, off + |data| - 1) <= MAX_INT64 ==> ok
      ensures ok ==>
        SlicesOf(be, Overlay(Contents(), off, data), BlockNo(be, off), toEncrypt) && |toEncrypt| == |blocks|
    {
      hide PlainOf, DecryptBlock, COff, POff, AeadContract, Splits, BodyHolds, Intact, NoWrap, CipherStart, Clip,
           Overlay, BlockNo, HeaderID, Gathered, SlicesOf, MergeBlocks;
      toEncrypt, ok := [], true;
      ghost var p := Contents();
      GatherStart(be, p, off, data, blocks);
      var pos: nat := 0;
      for i := 0 to |blocks|
        invariant ID == old(ID)
        invariant Gathered(be, p, off, data, blocks, i, pos, toEncrypt)
      {
        var b := blocks[i];
        GatherPiece(be, p, off, data, blocks, i, pos, toEncrypt);
        var blockData := data[pos..pos + b.length];
        if IsPartial(Geo(be), b) {
          var oldData, success := ReadWholeBlock(BlockNoToPlainOff(Geo(be), b.blockNo));
          if !success {
            ok := false;
            return;
          }
          blockData := MergeBlocks(be, oldData, blockData, b.skip);
        }
        GatherStep(be, p, off, data, blocks, i, pos, toEncrypt, blockData);
        toEncrypt := toEncrypt + [blockData];
        pos := pos + b.length;
      }
      GatherEnd(be, p, off, data, blocks, pos, toEncrypt);
    }

    method DoWrite(data: bytes, off: nat) returns (n: nat, ok: bool)
      requires Coherent() && 0 < |data| <= MAX_KERNEL_WRITE && NoWrap(be, off, |data|)
      modifies this`ID, fd
      ensures n == (if ok then |data| else 0)
      ensures CipherStart(be, off + |data| - 1) <= MAX_INT64 ==> ok
      ensures !ok ==> Coherent() && Contents() == old(Contents())
      ensures ok && !old(Stale()) && StartsInReach(be, |old(Contents())|, off) ==>
        Valid() && ViewOf() == View(Overlay(old(Contents()), off, data), true)
      ensures ok && old(Stale()) ==> !Intact(be, fd.data)
      ensures ok && !StartsInReach(be, |old(Contents())|, off) && RejectsZeroExtension(be.aead) ==> !Intact(be, fd.data)
    {
      hide PlainOf, DecryptBlock, COff, POff, Clip, Overlay, NoWrap, CipherStart, BlockNo, Splits, SlicesOf,
           StartsInReach, RejectsZeroExtension, Intact, BodyHolds, AeadContract, CoversWrite, WriteShape,
           BlockNoToCipherOff, HeaderID;
      n, ok := 0, false;
      ghost var p := Contents();
      LoadOrCreateID();
      var blocks := ExplodePlainRange(Geo(be), off, |data|);
      var toEncrypt, success := GatherBlocks(blocks, data, off);
      if !success {
        return;
      }
      GatheredShape(be, p, off, data, blocks, toEncrypt);
      var ciphertext := EncryptBlocks(be, toEncrypt, blocks[0].blockNo, ID.value, numCPU);
      GatheredCovers(be, p, off, data, blocks, toEncrypt, ciphertext, ID.value);
      var cOff := BlockNoToCipherOff(Geo(be), blocks[0].blockNo);
      if cOff > MAX_INT64 {
        return;
      }
      ghost var d := fd.data;
      fd.WriteAt(ciphertext, cOff);
      WriteImage(be, d, ID.value, p, off, data, |blocks|, ciphertext);
      n, ok := |data|, true;
    }

    /** gcf_write_file: too big a request writes nothing; with a stale ID, or out of reach, the file is lost. */
    method WriteFile(off: nat, data: bytes) returns (n: nat)
      requires Coherent() && data != [] && Addressable(be, off + |data|)
      modifies this`ID, fd
      ensures n == (if |data| <= 131072 then |data| else 0)
      ensures |data| > 131072 ==> fd.data == old(fd.data) && ID == old(ID)
      ensures !old(Stale()) && (|data| <= 131072 ==> StartsInReach(be, |old(Contents())|, off)) ==>
        Valid() && ViewOf() == WriteView(old(ViewOf()), off, data)
      ensures |data| <= 131072 && old(Stale()) ==> !Intact(be, fd.data)
      ensures && |data| <= 131072 && !StartsInReach(be, |old(Contents())|, off)
              && RejectsZeroExtension(be.aead) ==>
        !Intact(be, fd.data)
    {
      hide Intact, StartsInReach, Addressable, Overlay, NoWrap, CipherStart, HeaderID, Plain, BlockNo, COff, POff,
           PlainOf, RejectsZeroExtension;
      if |data| > MAX_KERNEL_WRITE {
        return 0;
      }
      AddressableRange(be, off, |data|);
      var ok;
      n, ok := DoWrite(data, off);
    }

    /** gcf_read_file: the bytes placed in a buffer of the given length; a failed read places none. */
    method ReadFile(off: nat, length: nat) returns (out: bytes)
      requires Coherent() && 0 < length && Addressable(be, off + length)
      modifies this`ID
      ensures Coherent() && Stale() == old(Stale())
      ensures out == (if length <= 131072 then Clip(Contents(), off, off + length) else [])
      ensures ViewOf() == ReadView(old(ViewOf()), length)
    {
      hide Intact, Addressable, NoWrap, CipherStart, HeaderID, Clip;
      StaleIsEmpty(be, fd.data);
      ClipOfNothing(off, off + length);
      if length > MAX_KERNEL_WRITE {
        return [];
      }
      AddressableRange(be, off, length);
      ContentMeansPlain(be, fd.data);
      var ok;
      out, ok := DoRead([], off, length);
      if !ok {
        out := [];
      }
      assert [] + Clip(Contents(), off, off + length) == Clip(Contents(), off, off + length);
    }

    /** Zero-pad a file of this plaintext size to the next block boundary. */
    method ZeroPad(plainSize: nat) returns (ok: bool)
      requires Coherent() && plainSize == |Contents()| && Addressable(be, plainSize)
      requires plainSize > 0 ==> !Stale()
      modifies this`ID, fd
      ensures ok
      ensures Aligned(be, plainSize) ==> fd.data == old(fd.data) && ID == old(ID)
      ensures !Aligned(be, plainSize) ==>
        Valid() && ViewOf() == View(Resize(old(Contents()), POff(be, BlockNo(be, plainSize) + 1)), true)
    {
      hide Intact, HeaderID, Addressable, NoWrap, CipherStart, POff, COff, BlockNo, Overlay, Resize, StartsInReach,
           BlockRest, Plain, PlainOf;
      BlockFitsRequest(be);
      var lastBlockLen := BlockRest(be, plainSize);
      if lastBlockLen == 0 {
        return true;
      }
      var missing := be.plainBS - lastBlockLen;
      ZeroIsAligned(be);
      PadRange(be, plainSize, missing, Contents());
      var _, success := DoWrite(Zeros(missing), plainSize);
      ok := success;
    }

    /** Both ends on a block boundary: no block is encrypted, the new ones are holes. */
    method GrowAligned(wasEmpty: bool, newPlainSz: nat) returns (ok: bool)
      requires Coherent() && |Contents()| < newPlainSz && wasEmpty == (Contents() == [])
      requires Aligned(be, |Contents()|) && Aligned(be, newPlainSz)
      modifies this`ID, fd
      ensures ok && Valid()
      ensures ViewOf() == View(Resize(old(Contents()), newPlainSz), old(ID).Some? || wasEmpty)
    {
      hide Intact, HeaderID, Resize, PlainSizeToCipherSize;
      if wasEmpty {
        ghost var d := fd.data;
        var id := CreateHeader(fd);
        ID := Some(id);
        EmptyPlainIsSmall(be, d);
        FreshHeader(be, d, fd.data, id);
      } else {
        ContentMeansPlain(be, fd.data);
      }
      HoleImage(be, fd.data, newPlainSz);
      fd.Ftruncate(PlainSizeToCipherSize(Geo(be), newPlainSz));
      ok := true;
    }

    /** One zero byte at the new end. */
    method WriteLastByte(newPlainSz: nat) returns (ok: bool)
      requires Coherent() && |Contents()| < newPlainSz && Addressable(be, newPlainSz)
      requires StartsInReach(be, |Contents()|, newPlainSz - 1)
      modifies this`ID, fd
      ensures ok
      ensures !old(Stale()) ==> Valid() && ViewOf() == View(Resize(old(Contents()), newPlainSz), true)
      ensures old(Stale()) ==> !Intact(be, fd.data)
    {
      hide Intact, HeaderID, Addressable, NoWrap, CipherStart, StartsInReach, Resize, Overlay, Plain, BlockNo, COff,
           POff, PlainOf, Aligned;
      GrowPlan(be, Contents(), newPlainSz);
      BlockFitsRequest(be);
      var _, success := DoWrite(Zeros(1), newPlainSz - 1);
      ok := success;
    }

    method TruncateGrowFile(oldPlainSz: nat, newPlainSz: nat) returns (ok: bool)
      requires Coherent() && oldPlainSz == |Contents()| < newPlainSz && Addressable(be, newPlainSz)
      modifies this`ID, fd
      ensures ok
      ensures !old(Stale()) || Aligned(be, newPlainSz) ==>
        Valid() && ViewOf() == TruncateView(be, old(ViewOf()), newPlainSz)
      ensures old(Stale()) && !Aligned(be, newPlainSz) ==> !Intact(be, fd.data)
    {
      hide Intact, HeaderID, Addressable, NoWrap, CipherStart, POff, COff, BlockNo, StartsInReach, Resize, Overlay,
           TruncateView, BlockRest, Aligned, Plain, PlainOf;
      ghost var p, v := Contents(), ViewOf();
      var newEOFOffset := newPlainSz - 1;
      BlockFitsRequest(be);
      StaleIsEmpty(be, fd.data);
      GrowPlan(be, p, newPlainSz);
      GrowView(be, v, newPlainSz);
      if oldPlainSz > 0 {
        var n1 := BlockNo(be, oldPlainSz - 1);
        var n2 := BlockNo(be, newEOFOffset);
        if n1 == n2 {
          ok := WriteLastByte(newPlainSz);
          return;
        }
      }
      ok := ZeroPad(oldPlainSz);
      AfterPad(be, v, ViewOf(), newPlainSz);
      if Aligned(be, newPlainSz) {
        ok := GrowAligned(oldPlainSz == 0, newPlainSz);
        return;
      }
      ok := WriteLastByte(newPlainSz);
    }

    /** truncate, given that the stored size of the backing file is what gcf_get_attrs reports. */
    method Truncate(newSize: nat) returns (ok: bool)
      requires Coherent() && Addressable(be, Max(newSize, |Contents()|))
      modifies this`ID, fd
      ensures ok
      ensures newSize == 0 ==> fd.data == [] && ID == old(ID)
      ensures Valid() <==> (if newSize == 0 then old(ID).None? else !old(Stale()) || Aligned(be, newSize))
      ensures Valid() ==> ViewOf() == TruncateView(be, old(ViewOf()), newSize)
      ensures newSize > 0 && !Valid() ==> !Intact(be, fd.data)
    {
      hide HeaderID, Addressable, NoWrap, CipherStart, POff, COff, BlockNo, StartsInReach, Overlay, BodyHolds, PlainOf;
      if newSize == 0 {
        fd.Ftruncate(0);
        return true;
      }
      var oldSize := CipherSizeToPlainSize(Geo(be), |fd.data|);
      PlainSizeOfImage(be, fd.data);
      if newSize == oldSize {
        return true;
      }
      if newSize > oldSize {
        ok := TruncateGrowFile(oldSize, newSize);
        return;
      }
      ok := Shrink(newSize);
    }

    method Shrink(newSize: nat) returns (ok: bool)
      requires Valid() && 0 < newSize < |Contents()| && Addressable(be, |Contents()|)
      modifies this`ID, fd
      ensures ok && Valid() && ViewOf() == TruncateView(be, old(ViewOf()), newSize)
    {
      hide Intact, HeaderID, Addressable, NoWrap, CipherStart, POff, COff, BlockNo, StartsInReach, Overlay, BodyHolds,
           PlainOf, BlockNoToCipherOff;
      ghost var p := Contents();
      var blockNo := BlockNo(be, newSize);
      var cipherOff := BlockNoToCipherOff(Geo(be), blockNo);
      var plainOff := BlockNoToPlainOff(Geo(be), blockNo);
      BlockFitsRequest(be);
      ShrinkPlan(be, p, newSize);
      ContentMeansPlain(be, fd.data);
      CutImage(be, fd.data, newSize);
      var lastBlockLen := newSize - plainOff;
      var data := [];
      if lastBlockLen > 0 {
        data, ok := DoRead([], plainOff, lastBlockLen);
        if !ok {
          return;
        }
        assert data == Clip(p, plainOff, plainOff + lastBlockLen);
      }
      fd.Ftruncate(cipherOff);
      if lastBlockLen > 0 {
        var _, success := DoWrite(data, plainOff);
        return success;
      }
      ok := true;
    }

    /** The read of a read-modify-write: one block, or as much of it as there is. */
    method ReadWholeBlock(lo: nat) returns (oldData: bytes, ok: bool)
      requires Coherent() && ID.Some? && NoWrap(be, lo, be.plainBS)
      modifies this`ID
      ensures ID == old(ID)
      ensures ok <==> CipherStart(be, lo) <= MAX_INT64
      ensures ok ==> oldData == Clip(Contents(), lo, lo + be.plainBS)
    {
      hide Intact, NoWrap, CipherStart, HeaderID, Plain, BlockNo, COff, POff, PlainOf, Clip;
      BlockFitsRequest(be);
      oldData, ok := DoRead([], lo, be.plainBS);
      assert [] + Clip(Contents(), lo, lo + be.plainBS) == Clip(Contents(), lo, lo + be.plainBS);
    }
  }

  lemma AddressableRange(be: ContentEnc, off: nat, len: nat)
    requires 0 < len && Addressable(be, off + len)
    ensures NoWrap(be, off, len) && CipherStart(be, off + len - 1) <= MAX_INT64 && CipherStart(be, off) <= MAX_INT64
  {
    hide COff, POff;
    BlockNoMono(be, off, off + len);
    BlockNoMono(be, off + len - 1, off + len);
    OffAdd(be, BlockNo(be, off + len - 1), 1);
    OffMono(be, BlockNo(be, off), BlockNo(be, off + len));
    OffMono(be, BlockNo(be, off + len - 1), BlockNo(be, off + len));
  }

  lemma BlockNoMono(be: ContentEnc, a: nat, b: nat)
    requires a <= b
    ensures BlockNo(be, a) <= BlockNo(be, b)
  {
    BlockContains(be, a);
    BlockContains(be, b);
    if BlockNo(be, b) < BlockNo(be, a) {
      OffMono(be, BlockNo(be, b), BlockNo(be, a));
      assert false;
    }
  }

  lemma AddressableBelow(be: ContentEnc, a: nat, b: nat)
    requires a <= b && Addressable(be, b)
    ensures Addressable(be, a)
  {
    hide COff;
    BlockNoMono(be, a, b);
    OffMono(be, BlockNo(be, a), BlockNo(be, b));
  }

  /** A readable file is longer than its header exactly when it has plaintext. */
  lemma ContentMeansPlain(be: ContentEnc, d: bytes)
    requires Intact(be, d)
    ensures |d| > HEADER_LEN <==> Plain(be, d) != []
  {
    hide PlainOf, DecryptBlock, LegalCipherSize, CipherSizeToPlainSize;
    if d != [] {
      BodySize(be, d[HEADER_LEN..], HeaderID(d), Plain(be, d));
      if Plain(be, d) != [] {
      } else {
        assert d[HEADER_LEN..] == [];
      }
    }
  }

  lemma EmptyPlainIsSmall(be: ContentEnc, d: bytes)
    requires Intact(be, d) && Plain(be, d) == []
    ensures |d| <= HEADER_LEN
  {
    ContentMeansPlain(be, d);
  }

  /** The size a directory listing reports for a readable file is the size of its plaintext. */
  lemma PlainSizeOfImage(be: ContentEnc, d: bytes)
    requires Intact(be, d)
    ensures CipherSizeToPlainSize(Geo(be), |d|) == |Plain(be, d)|
  {
    hide PlainOf, DecryptBlock, LegalCipherSize;
    if d != [] {
      BodySize(be, d[HEADER_LEN..], HeaderID(d), Plain(be, d));
    }
  }

  lemma PadRange(be: ContentEnc, size: nat, missing: nat, p: bytes)
    requires |p| == size && Addressable(be, size) && !Aligned(be, size) && missing == be.plainBS - BlockRest(be, size)
    ensures 0 < missing <= be.plainBS && NoWrap(be, size, missing) && CipherStart(be, size + missing - 1) <= MAX_INT64
    ensures StartsInReach(be, size, size)
    ensures Overlay(p, size, Zeros(missing)) == Resize(p, POff(be, BlockNo(be, size) + 1))
  {
    hide COff, POff, BlockNo;
    BlockContains(be, size);
    OffAdd(be, BlockNo(be, size), 1);
    SameBlock(be, size, size + missing - 1);
    OffAdd(be, BlockNo(be, size), 1);
    AppendIsResize(p, missing);
  }

  lemma AppendIsResize(p: bytes, n: nat)
    requires 0 < n
    ensures Overlay(p, |p|, Zeros(n)) == Resize(p, |p| + n)
  {
    OverlayBytes(p, |p|, Zeros(n));
  }

  lemma SameBlock(be: ContentEnc, a: nat, b: nat)
    requires POff(be, BlockNo(be, a)) <= b < POff(be, BlockNo(be, a)) + be.plainBS
    ensures BlockNo(be, b) == BlockNo(be, a)
  {
    DivModUnique(b, be.plainBS, BlockNo(be, a), b - POff(be, BlockNo(be, a)));
  }

  lemma AlignedEnd(be: ContentEnc, n: nat)
    ensures Aligned(be, n) <==> n == POff(be, BlockNo(be, n))
    ensures 0 < n && Aligned(be, n) ==> BlockNo(be, n - 1) < BlockNo(be, n)
  {
    BlockContains(be, n);
    if 0 < n {
      BlockContains(be, n - 1);
      if Aligned(be, n) {
        BlockNoMono(be, n - 1, n);
      }
    }
  }

  lemma StaleIsEmpty(be: ContentEnc, d: bytes)
    requires Intact(be, d)
    ensures d == [] ==> Plain(be, d) == []
    ensures Plain(be, d) != [] ==> d != []
  {
  }

  lemma GrowView(be: ContentEnc, v: View, n: nat)
    requires |v.plain| < n
    ensures var aligned := Aligned(be, |v.plain|) && Aligned(be, n);
      TruncateView(be, v, n) == View(Resize(v.plain, n), v.cached || v.plain == [] || !aligned)
  {
  }

  /** Facts the growing paths rely on, by the position of the old and the new end. */
  lemma GrowPlan(be: ContentEnc, p: bytes, n: nat)
    requires |p| < n && Addressable(be, n)
    ensures Addressable(be, |p|) && NoWrap(be, n - 1, 1) && CipherStart(be, n - 1) <= MAX_INT64
    ensures Overlay(p, n - 1, Zeros(1)) == Resize(p, n)
    ensures |p| > 0 && BlockNo(be, |p| - 1) == BlockNo(be, n - 1) ==>
      StartsInReach(be, |p|, n - 1) && !(Aligned(be, |p|) && Aligned(be, n))
  {
    hide Addressable, NoWrap, CipherStart, POff, COff, BlockNo, StartsInReach, Resize, Overlay, Aligned;
    AddressableBelow(be, |p|, n);
    AddressableRange(be, n - 1, 1);
    GrowByOneByte(p, n);
    GrowEnds(be, |p|, n);
  }

  /** The file after the zero-padding step, as the view v1, ends on a block boundary before the new end. */
  lemma AfterPad(be: ContentEnc, v: View, v1: View, n: nat)
    requires |v.plain| < n
    requires v.plain == [] || BlockNo(be, |v.plain| - 1) != BlockNo(be, n - 1)
    requires v1
        == if Aligned(be, |v.plain|) then v else View(Resize(v.plain, POff(be, BlockNo(be, |v.plain|) + 1)), true)
    ensures |v1.plain| < n && Aligned(be, |v1.plain|) && StartsInReach(be, |v1.plain|, n - 1)
    ensures (v1.plain == [] <==> v.plain == [])
    ensures Overlay(v1.plain, n - 1, Zeros(1)) == Resize(v1.plain, n) == Resize(v.plain, n)
    ensures TruncateView(be, v, n)
        == View(Resize(v.plain, n), if Aligned(be, n) then v1.cached || v1.plain == [] else true)
  {
    hide POff, COff, BlockNo, StartsInReach, Resize, Overlay, BlockRest;
    var p := v.plain;
    ZeroIsAligned(be);
    GrowView(be, v, n);
    GrowEnds(be, |p|, n);
    GrowByOneByte(p, n);
    if !Aligned(be, |p|) {
      var mid := POff(be, BlockNo(be, |p|) + 1);
      ResizeLength(p, mid);
      GrowByOneByte(Resize(p, mid), n);
      ResizeTwice(p, mid, n);
    }
  }

  lemma ZeroIsAligned(be: ContentEnc)
    ensures Aligned(be, 0)
  {
  }

  lemma ResizeLength(p: bytes, n: nat)
    ensures |Resize(p, n)| == n && Resize(p, |p|) == p
  {
  }

  lemma GrowEnds(be: ContentEnc, size: nat, n: nat)
    requires size < n
    ensures size > 0 && BlockNo(be, size - 1) == BlockNo(be, n - 1) ==>
      StartsInReach(be, size, n - 1) && !(Aligned(be, size) && Aligned(be, n))
    ensures Aligned(be, size) ==> StartsInReach(be, size, n - 1)
    ensures !Aligned(be, size) && BlockNo(be, size - 1) != BlockNo(be, n - 1) ==>
      var mid := POff(be, BlockNo(be, size) + 1);
      size < mid < n && Aligned(be, mid) && StartsInReach(be, mid, n - 1)
  {
    hide POff, COff;
    AlignedEnd(be, size);
    AlignedEnd(be, n);
    BlockNoMono(be, size, n - 1);
    if size > 0 {
      BlockNoMono(be, size - 1, size);
      if !Aligned(be, size) {
        BlockContains(be, size);
        SameBlock(be, size, size - 1);
        var k := BlockNo(be, size);
        OffAdd(be, k, 1);
        BlockContains(be, n - 1);
        OffMono(be, k + 1, Max(k + 1, BlockNo(be, n - 1)));
        BoundaryAligned(be, k + 1);
      }
    }
  }

  lemma BoundaryAligned(be: ContentEnc, k: nat)
    ensures Aligned(be, POff(be, k)) && BlockNo(be, POff(be, k)) == k
  {
    DivModUnique(POff(be, k), be.plainBS, k, 0);
  }

  /** Growing the backing file of a block-aligned plaintext to the size of a bigger block-aligned one. */
  lemma HoleImage(be: ContentEnc, d: bytes, n: nat)
    requires Intact(be, d) && d != [] && Aligned(be, |Plain(be, d)|) && |Plain(be, d)| <= n
    requires 0 < n && Aligned(be, n)
    ensures var d' := Resize(d, PlainSizeToCipherSize(Geo(be), n));
      HEADER_LEN <= |d'| && HeaderID(d') == HeaderID(d) && Intact(be, d') && Plain(be, d') == Resize(Plain(be, d), n)
  {
    hide PlainOf, DecryptBlock, LegalCipherSize, COff, POff, BodyLen, PlainSizeToCipherSize, BlockNo;
    var p, c := Plain(be, d), d[HEADER_LEN..];
    var q, k := BlockNo(be, |p|), BlockNo(be, n);
    AlignedEnd(be, |p|);
    AlignedEnd(be, n);
    BlockNoMono(be, |p|, n);
    GrowWithHoles(be, c, HeaderID(d), p, q, k);
    CipherSizeAt(be, k);
    OffMono(be, 0, k);
    OffAdd(be, 0, 0);
    BlocksInside(be, c, HeaderID(d), p, k);
    var d' := Resize(d, PlainSizeToCipherSize(Geo(be), n));
    assert |c| <= COff(be, k);
    assert d'[..HEADER_LEN] == d[..HEADER_LEN];
    SameHeader(d, d');
    assert d'[HEADER_LEN..] == Resize(c, COff(be, k));
    IntactIntro(be, d', Resize(c, COff(be, k)), Resize(p, n));
  }

  lemma SameHeader(d: bytes, d': bytes)
    requires HEADER_LEN <= |d| && HEADER_LEN <= |d'| && d[..HEADER_LEN] == d'[..HEADER_LEN]
    ensures HeaderID(d') == HeaderID(d)
  {
    assert HeaderID(d') == d'[..HEADER_LEN][HEADER_VERSION_LEN..];
    assert HeaderID(d) == d[..HEADER_LEN][HEADER_VERSION_LEN..];
  }

  lemma CipherSizeAt(be: ContentEnc, k: nat)
    ensures 0 < k ==> PlainSizeToCipherSize(Geo(be), POff(be, k)) == HEADER_LEN + COff(be, k)
  {
    CipherSizeOfBlocks(Geo(be), k, 0);
  }

  /** Cutting the backing file in front of the block that holds the new end. */
  lemma CutImage(be: ContentEnc, d: bytes, n: nat)
    requires Intact(be, d) && 0 < n < |Plain(be, d)|
    ensures var d' := Resize(d, BlockNoToCipherOff(Geo(be), BlockNo(be, n)));
      HEADER_LEN <= |d'| && HeaderID(d') == HeaderID(d) && Intact(be, d')
      && POff(be, BlockNo(be, n)) <= |Plain(be, d)| && Plain(be, d') == Plain(be, d)[..POff(be, BlockNo(be, n))]
  {
    hide PlainOf, DecryptBlock, LegalCipherSize, COff, POff, BodyLen, BlockNo;
    var p, c, k := Plain(be, d), d[HEADER_LEN..], BlockNo(be, n);
    BlockContains(be, n);
    CutBlocks(be, c, HeaderID(d), p, k);
    CipherOffAt(be, k);
    var d' := Resize(d, HEADER_LEN + COff(be, k));
    assert d'[..HEADER_LEN] == d[..HEADER_LEN];
    SameHeader(d, d');
    assert d'[HEADER_LEN..] == c[..COff(be, k)];
    IntactIntro(be, d', c[..COff(be, k)], p[..POff(be, k)]);
  }

  lemma CipherOffAt(be: ContentEnc, k: nat)
    ensures BlockNoToCipherOff(Geo(be), k) == HEADER_LEN + COff(be, k)
    ensures BlockNoToPlainOff(Geo(be), k) == POff(be, k)
  {
  }

  lemma ShrinkPlan(be: ContentEnc, p: bytes, n: nat)
    requires 0 < n < |p| && Addressable(be, |p|)
    ensures var plainOff := POff(be, BlockNo(be, n)); var len := n - plainOff;
      && BlockNoToPlainOff(Geo(be), BlockNo(be, n)) == plainOff <= n && len < be.plainBS
      && (len == 0 <==> Aligned(be, n))
      && (len > 0 ==>
            && NoWrap(be, plainOff, len) && CipherStart(be, plainOff + len - 1) <= MAX_INT64
            && CipherStart(be, plainOff) <= MAX_INT64 && StartsInReach(be, plainOff, plainOff)
            && |Clip(p, plainOff, plainOff + len)| == len
            && Overlay(p[..plainOff], plainOff, Clip(p, plainOff, plainOff + len)) == Resize(p, n))
      && (len == 0 ==> p[..plainOff] == Resize(p, n))
  {
    hide COff;
    AlignedEnd(be, n);
    BlockContains(be, n);
    BoundaryAligned(be, BlockNo(be, n));
    AddressableBelow(be, n, |p|);
    CipherOffAt(be, BlockNo(be, n));
    var plainOff := POff(be, BlockNo(be, n));
    if plainOff < n { 
      AddressableRange(be, plainOff, n - plainOff);
      assert p[..plainOff] + [] == p[..plainOff];
    }
  }

  /** blocks[j] is block n0 + j of p. */
  ghost predicate SlicesOf(be: ContentEnc, p: bytes, n0: nat, blocks: seq<bytes>) {
    forall j | 0 <= j < |blocks| :: blocks[j] == Clip(p, POff(be, n0 + j), POff(be, n0 + j) + be.plainBS)
  }

  /** The first i blocks of the new plaintext are ready and pos bytes of the data are used up. */
  ghost predicate Gathered(be: ContentEnc, p: bytes, off: nat, data: bytes, blocks: seq<IntraBlock>,
                           i: nat, pos: nat, ready: seq<bytes>) {
    && Splits(Geo(be), off, |data|, blocks) && NoWrap(be, off, |data|) && |data| <= MAX_KERNEL_WRITE
    && |ready| == i <= |blocks| && SlicesOf(be, Overlay(p, off, data), BlockNo(be, off), ready)
    && (if i < |blocks| then off + pos == POff(be, BlockNo(be, off) + i) + blocks[i].skip else pos == |data|)
    && (i == 0 <==> pos == 0)
  }

  lemma GatherStart(be: ContentEnc, p: bytes, off: nat, data: bytes, blocks: seq<IntraBlock>)
    requires Splits(Geo(be), off, |data|, blocks) && NoWrap(be, off, |data|) && |data| <= MAX_KERNEL_WRITE
    ensures Gathered(be, p, off, data, blocks, 0, 0, [])
  {
    BlockContains(be, off);
  }

  lemma GatherPiece(be: ContentEnc, p: bytes, off: nat, data: bytes, blocks: seq<IntraBlock>, i: nat, pos: nat,
                    ready: seq<bytes>)
    requires Gathered(be, p, off, data, blocks, i, pos, ready) && i < |blocks|
    ensures var b := blocks[i]; var lo := BlockNoToPlainOff(Geo(be), b.blockNo);
      && pos + b.length <= |data| && b.skip + b.length <= be.plainBS
      && |Clip(p, lo, lo + be.plainBS)| <= be.plainBS
      && NoWrap(be, lo, be.plainBS) && CipherStart(be, lo) <= CipherStart(be, off + |data| - 1)
  {
    hide SlicesOf;
    PieceOfSplit(be, off, |data|, blocks, i, pos);
  }

  lemma GatherStep(be: ContentEnc, p: bytes, off: nat, data: bytes, blocks: seq<IntraBlock>, i: nat, pos: nat,
                   ready: seq<bytes>, blockData: bytes)
    requires Gathered(be, p, off, data, blocks, i, pos, ready) && i < |blocks|
    requires var b := blocks[i]; var lo := BlockNoToPlainOff(Geo(be), b.blockNo);
      && pos + b.length <= |data| && b.skip + b.length <= be.plainBS && |Clip(p, lo, lo + be.plainBS)| <= be.plainBS
      && blockData == (if IsPartial(Geo(be), b)
                       then MergeBlocks(be, Clip(p, lo, lo + be.plainBS), data[pos..pos + b.length], b.skip)
                       else data[pos..pos + b.length])
    ensures Gathered(be, p, off, data, blocks, i + 1, pos + blocks[i].length, ready + [blockData])
  {
    hide NoWrap, CipherStart, POff, Overlay, Clip, MergeBlocks;
    var b := blocks[i];
    PieceOfSplit(be, off, |data|, blocks, i, pos);
    var lo := POff(be, b.blockNo);
    var piece := data[pos..pos + b.length];
    ClipOfOverlay(p, off, data, lo, lo + be.plainBS, pos, b.length, b.skip);
    if IsPartial(Geo(be), b) {
      MergeIsOverlay(be, Clip(p, lo, lo + be.plainBS), piece, b.skip);
    } else {
      FullBlockIsOverlay(be, p, lo, piece);
    }
  }

  lemma GatherEnd(be: ContentEnc, p: bytes, off: nat, data: bytes, blocks: seq<IntraBlock>, pos: nat, ready: seq<bytes>)
    requires Gathered(be, p, off, data, blocks, |blocks|, pos, ready)
    ensures SlicesOf(be, Overlay(p, off, data), BlockNo(be, off), ready) && |ready| == |blocks|
  {
  }

  lemma MergeIsOverlay(be: ContentEnc, oldData: bytes, newData: bytes, offset: nat)
    requires |oldData| <= be.plainBS && offset + |newData| <= be.plainBS && newData != []
    ensures MergeBlocks(be, oldData, newData, offset) == Overlay(oldData, offset, newData)
  {
    OverlayBytes(oldData, offset, newData);
  }

  lemma FullBlockIsOverlay(be: ContentEnc, p: bytes, lo: nat, newData: bytes)
    requires |newData| == be.plainBS
    ensures Overlay(Clip(p, lo, lo + be.plainBS), 0, newData) == newData
  {
    OverlayBytes(Clip(p, lo, lo + be.plainBS), 0, newData);
  }

  /** Where piece i of a split lies in the data, and what reading its whole block takes. */
  lemma PieceOfSplit(be: ContentEnc, off: nat, len: nat, blocks: seq<IntraBlock>, i: nat, pos: nat)
    requires Splits(Geo(be), off, len, blocks) && i < |blocks| && NoWrap(be, off, len)
    requires off + pos == POff(be, BlockNo(be, off) + i) + blocks[i].skip && (i == 0 <==> pos == 0)
    ensures var b := blocks[i];
      && b.blockNo == BlockNo(be, off) + i && BlockNoToPlainOff(Geo(be), b.blockNo) == POff(be, b.blockNo)
      && 0 < b.length && b.skip + b.length <= be.plainBS && pos + b.length <= len && (pos == 0 || b.skip == 0)
      && (if i + 1 < |blocks|
          then b.skip + b.length == be.plainBS && blocks[i + 1].skip == 0
               && off + pos + b.length == POff(be, BlockNo(be, off) + (i + 1))
          else pos + b.length == len)
      && NoWrap(be, POff(be, b.blockNo), be.plainBS)
      && CipherStart(be, POff(be, b.blockNo)) <= CipherStart(be, off + len - 1)
  {
    hide COff;
    var b, last := blocks[i], blocks[|blocks| - 1];
    SplitIsUnique(Geo(be), off, len, blocks);
    assert last.blockNo == BlockNo(be, off + len - 1);
    PieceEnds(be, b.blockNo, last.blockNo);
  }

  lemma PieceEnds(be: ContentEnc, b: nat, last: nat)
    requires b <= last
    ensures BlockNo(be, POff(be, b)) == b && BlockNo(be, POff(be, b) + be.plainBS - 1) == b
    ensures POff(be, b + 1) == POff(be, b) + be.plainBS
    ensures b < last ==> POff(be, b + 1) <= POff(be, last)
    ensures COff(be, b) <= COff(be, last) && COff(be, b + 1) <= COff(be, last + 1)
  {
    DivModUnique(POff(be, b), be.plainBS, b, 0);
    DivModUnique(POff(be, b) + be.plainBS - 1, be.plainBS, b, be.plainBS - 1);
    OffAdd(be, b, 1);
    OffMono(be, b, last);
    OffMono(be, b + 1, last + 1);
  }

  lemma BlockFitsRequest(be: ContentEnc)
    ensures be.plainBS <= MAX_KERNEL_WRITE
  {
    DivMod(MAX_KERNEL_WRITE, be.plainBS);
    if MAX_KERNEL_WRITE < be.plainBS {
      DivModUnique(MAX_KERNEL_WRITE, be.plainBS, 0, MAX_KERNEL_WRITE);
      assert false;
    }
  }

  /** A new header on a file without content leaves it without content. */
  lemma FreshHeader(be: ContentEnc, d: bytes, d': bytes, id: FileID)
    requires Intact(be, d) && |d| <= HEADER_LEN && d' == Overlay(d, 0, Pack(id))
    requires HEADER_LEN <= |d'| && ParseHeader(d'[..HEADER_LEN]).Parsed? && HeaderID(d') == id
    ensures Intact(be, d') && Plain(be, d') == Plain(be, d) == []
  {
    OverlayBytes(d, 0, Pack(id));
    NoBlocks(be, 0, id);
    assert d'[HEADER_LEN..] == [];
    IntactIntro(be, d', [], []);
    if d != [] {
      assert d[HEADER_LEN..] == [];
      NoBlocks(be, 0, HeaderID(d));
    }
  }

  /** The blocks a write prepares are full but for the last, and together are one stretch of the new plaintext. */
  lemma GatheredShape(be: ContentEnc, p: bytes, off: nat, data: bytes, blocks: seq<IntraBlock>, ready: seq<bytes>)
    requires Splits(Geo(be), off, |data|, blocks) && data != [] && |ready| == |blocks|
    requires SlicesOf(be, Overlay(p, off, data), BlockNo(be, off), ready)
    ensures WriteShape(be, ready) && blocks != [] && blocks[0].blockNo == BlockNo(be, off)
    ensures BlockNoToCipherOff(Geo(be), blocks[0].blockNo) == CipherStart(be, off) <= CipherStart(be, off + |data| - 1)
    ensures
      var n0, m := BlockNo(be, off), |ready|;
      var pt := Clip(Overlay(p, off, data), POff(be, n0), POff(be, n0 + m));
      && off + |data| <= POff(be, n0 + m) && Flatten(ready) == pt && POff(be, m - 1) < |pt| <= POff(be, m)
  {
    hide COff, POff, Overlay, Clip, SlicesOf, Splits, BlockNo, BlockNoToCipherOff;
    var n0, m := BlockNo(be, off), |ready|;
    var p' := Overlay(p, off, data);
    OverlayBytes(p, off, data);
    LastBlockEnds(be, off, |data|, blocks);
    OffMono(be, n0, n0 + (m - 1));
    OffAdd(be, n0, m);
    OffAdd(be, n0, m - 1);
    OffAdd(be, m - 1, 1);
    SlicesFlatten(be, p', n0, ready);
    ClipLength(p', POff(be, n0), POff(be, m));
  }

  lemma LastBlockEnds(be: ContentEnc, off: nat, len: nat, blocks: seq<IntraBlock>)
    requires Splits(Geo(be), off, len, blocks) && 0 < len
    ensures blocks != [] && blocks[0].blockNo == BlockNo(be, off)
    ensures var lo := POff(be, BlockNo(be, off) + (|blocks| - 1)); lo < off + len <= lo + be.plainBS
    ensures BlockNo(be, off + len - 1) == BlockNo(be, off) + (|blocks| - 1)
    ensures BlockNoToCipherOff(Geo(be), blocks[0].blockNo) == CipherStart(be, off)
  {
    SplitIsUnique(Geo(be), off, len, blocks);
  }

  lemma {:induction false} SlicesFlatten(be: ContentEnc, p: bytes, n0: nat, ready: seq<bytes>)
    requires SlicesOf(be, p, n0, ready) && ready != [] && POff(be, n0 + (|ready| - 1)) < |p|
    ensures Flatten(ready) == Clip(p, POff(be, n0), POff(be, n0 + |ready|))
    ensures WriteShape(be, ready)
    decreases |ready|
  {
    hide POff, COff, Clip;
    OffAdd(be, n0, 1);
    assert ready[0] == Clip(p, POff(be, n0 + 0), POff(be, n0 + 0) + be.plainBS);
    if |ready| == 1 {
      ClipLength(p, POff(be, n0), be.plainBS);
      assert Flatten(ready[1..]) == [];
      assert ready[0] + [] == ready[0];
    } else {
      var rest := ready[1..];
      SlicesTail(be, p, n0, ready);
      assert n0 + 1 + (|rest| - 1) == n0 + (|ready| - 1);
      SlicesFlatten(be, p, n0 + 1, rest);
      assert n0 + 1 + |rest| == n0 + |ready|;
      OffMono(be, n0 + 1, n0 + (|ready| - 1));
      OffMono(be, n0 + 1, n0 + |ready|);
      ClipJoin(p, POff(be, n0), POff(be, n0 + 1), POff(be, n0 + |ready|));
      ClipLength(p, POff(be, n0), be.plainBS);
      forall i | 0 <= i < |ready|
        ensures 0 < |ready[i]| <= be.plainBS && (i + 1 < |ready| ==> |ready[i]| == be.plainBS)
      {
        if i > 0 { assert ready[i] == rest[i - 1]; }
      }
    }
  }

  lemma ClipLength(p: bytes, lo: nat, n: nat)
    requires lo < |p|
    ensures |Clip(p, lo, lo + n)| == Min(n, |p| - lo)
  {
  }

  lemma SlicesTail(be: ContentEnc, p: bytes, n0: nat, ready: seq<bytes>)
    requires SlicesOf(be, p, n0, ready) && ready != []
    ensures SlicesOf(be, p, n0 + 1, ready[1..])
  {
    hide POff, Clip;
    forall j | 0 <= j < |ready| - 1
      ensures ready[1..][j] == Clip(p, POff(be, n0 + 1 + j), POff(be, n0 + 1 + j) + be.plainBS)
    {
      assert n0 + 1 + j == n0 + (j + 1);
      assert ready[1..][j] == ready[j + 1];
    }
  }

  lemma GatheredCovers(be: ContentEnc, p: bytes, off: nat, data: bytes, blocks: seq<IntraBlock>, ready: seq<bytes>,
                       ct: bytes, id: FileID)
    requires Splits(Geo(be), off, |data|, blocks) && data != [] && |ready| == |blocks|
    requires SlicesOf(be, Overlay(p, off, data), BlockNo(be, off), ready)
    requires PlainOf(be, ct, BlockNo(be, off), id) == Some(Flatten(ready))
    requires |ct| == |Flatten(ready)| + COff(be, |ready|) - POff(be, |ready|)
    ensures CoversWrite(be, p, off, data, BlockNo(be, off), |blocks|, ct, id)
  {
    hide COff, POff, PlainOf, Overlay, Splits, SlicesOf;
    GatheredShape(be, p, off, data, blocks, ready);
  }

  lemma CoversSomething(be: ContentEnc, p: bytes, off: nat, data: bytes, n0: nat, m: nat, ct: bytes, id: FileID)
    requires CoversWrite(be, p, off, data, n0, m, ct, id)
    ensures ct != []
  {
    OffMono(be, 0, m);
  }

  /** What the write does to the whole backing file. */
  lemma WriteImage(be: ContentEnc, d: bytes, id: FileID, p: bytes, off: nat, data: bytes, m: nat, ct: bytes)
    requires Intact(be, d) && p == Plain(be, d) && CoversWrite(be, p, off, data, BlockNo(be, off), m, ct, id)
    requires d != [] ==> HeaderID(d) == id
    ensures var d' := Overlay(d, CipherStart(be, off), ct);
      && (d != [] && StartsInReach(be, |p|, off) ==>
            && d' != [] && HEADER_LEN <= |d'| && HeaderID(d') == id
            && Intact(be, d') && Plain(be, d') == Overlay(p, off, data))
      && (d != [] && !StartsInReach(be, |p|, off) && RejectsZeroExtension(be.aead) ==> !Intact(be, d'))
      && (d == [] ==> !Intact(be, d'))
  {
    hide COff, POff, PlainOf, DecryptBlock, LegalCipherSize, BodyLen, StartsInReach, RejectsZeroExtension,
         CoversWrite, Overlay;
    var n0 := BlockNo(be, off);
    var d' := Overlay(d, CipherStart(be, off), ct);
    if d == [] {
      CoversSomething(be, p, off, data, n0, m, ct, id);
      OverlayBytes(d, CipherStart(be, off), ct);
      assert d'[..HEADER_LEN] == Zeros(HEADER_LEN);
    } else {
      OverlayAfterHeader(d, COff(be, n0), ct);
      assert d'[..HEADER_LEN] == d[..HEADER_LEN];
      assert HeaderID(d') == d'[..HEADER_LEN][HEADER_VERSION_LEN..];
      assert HeaderID(d) == d[..HEADER_LEN][HEADER_VERSION_LEN..];
      var c, c' := d[HEADER_LEN..], Overlay(d[HEADER_LEN..], COff(be, n0), ct);
      assert d'[HEADER_LEN..] == c';
      if StartsInReach(be, |p|, off) {
        WriteBlocks(be, c, id, p, off, data, n0, m, ct);
        IntactIntro(be, d', c', Overlay(p, off, data));
      } else if RejectsZeroExtension(be.aead) {
        CoversSomething(be, p, off, data, n0, m, ct, id);
        WritePastUnalignedEnd(be, c, id, p, off, n0, ct);
      }
    }
  }

  /** Decrypting the whole blocks of a request and cropping the result answers the request. */
  lemma ReadAnswer(be: ContentEnc, d: bytes, id: FileID, off: nat, length: nat, m: nat, skip: nat)
    requires Intact(be, d) && (d != [] ==> HeaderID(d) == id)
    requires 0 < length && POff(be, BlockNo(be, off)) + skip == off && off + length <= POff(be, BlockNo(be, off) + m)
    ensures var x := Clip(d, CipherStart(be, off), CipherStart(be, off) + COff(be, m));
         var pt := PlainOf(be, x, BlockNo(be, off), id);
      && pt.Some? && |pt.value| <= POff(be, m)
      && Crop(pt.value, skip, length) == Clip(Plain(be, d), off, off + length)
      && (x == [] ==> Clip(Plain(be, d), off, off + length) == [])
  {
    hide PlainOf, DecryptBlock, COff, POff, Clip, Intact, HeaderID, Crop, BlockNo;
    var n0 := BlockNo(be, off);
    OffAdd(be, n0, m);
    ReadImage(be, d, id, n0, m);
    CropIsClip(Plain(be, d), POff(be, n0), POff(be, n0 + m), skip, length);
  }

  lemma RangeOfBlocks(be: ContentEnc, off: nat, len: nat, blocks: seq<IntraBlock>)
    requires Splits(Geo(be), off, len, blocks) && 0 < len <= MAX_KERNEL_WRITE
    ensures blocks != [] && blocks[0].blockNo == BlockNo(be, off) && POff(be, BlockNo(be, off)) + blocks[0].skip == off
    ensures JointCiphertextRange(Geo(be), blocks) == (CipherStart(be, off), COff(be, |blocks|))
    ensures COff(be, |blocks|) <= CReqSize(be) && POff(be, |blocks|) <= PReqSize(be)
    ensures var n0, m := BlockNo(be, off), |blocks|;
      && COff(be, n0 + m) == COff(be, n0) + COff(be, m) && POff(be, n0 + m) == POff(be, n0) + POff(be, m)
      && off + len <= POff(be, n0 + m)
  {
    JointRangeOfSplit(Geo(be), off, len, blocks);
    RequestFitsBuffers(be, off, len, blocks);
    OffAdd(be, BlockNo(be, off), |blocks|);
    BlockContains(be, off);
    var last := blocks[|blocks| - 1];
    MulStep(last.blockNo, be.plainBS);
  }

  /** Reading whole blocks of a readable file and decrypting them gives that part of the plaintext. */
  lemma ClipOfNothing(lo: nat, hi: nat)
    ensures Clip([], lo, hi) == []
  {
  }

  lemma ReadImage(be: ContentEnc, d: bytes, id: FileID, n0: nat, m: nat)
    requires Intact(be, d) && (d != [] ==> HeaderID(d) == id)
    ensures var x := Clip(d, HEADER_LEN + COff(be, n0), HEADER_LEN + COff(be, n0 + m));
      && PlainOf(be, x, n0, id) == Some(Clip(Plain(be, d), POff(be, n0), POff(be, n0 + m)))
      && (x == [] <==> Clip(Plain(be, d), POff(be, n0), POff(be, n0 + m)) == [])
  {
    hide PlainOf, DecryptBlock, COff, POff, LegalCipherSize, BodyLen, Clip;
    if d == [] {
      NoBlocks(be, n0, id);
      ClipOfNothing(HEADER_LEN + COff(be, n0), HEADER_LEN + COff(be, n0 + m));
      ClipOfNothing(POff(be, n0), POff(be, n0 + m));
    } else {
      ClipAfterHeader(d, COff(be, n0), COff(be, n0 + m));
      ReadBlocks(be, d[HEADER_LEN..], id, Plain(be, d), n0, m);
    }
  }
}
