/** Copying a file into a volume and back (encryptFile and decryptFileToDisk in sync.go). */
module FileCopy {
  import opened Bytes
  import opened ByteFile
  import opened ContentEnc
  import opened DiskImage
  import opened EncFile

  const CHUNK: nat := 64 * 1024

  /** A plain file open for reading. Reads may be short; an empty read means end of file. */
  class SourceFile {
    const content: bytes
    var pos: nat

    constructor (content: bytes)
      ensures this.content == content && pos == 0
    {
      this.content, pos := content, 0;
    }

    ghost predicate Valid()
      reads this
    {
      pos <= |content|
    }

    method Read(max: nat) returns (buf: bytes, eof: bool)
      requires Valid() && 0 < max
      modifies this
      ensures Valid() && pos == old(pos) + |buf| && |buf| <= max && buf == content[old(pos)..pos]
      ensures eof <==> old(pos) == |content|
      ensures buf == [] <==> eof
    {
      eof := pos == |content|;
      assert eof || (0 < 1 <= max && 1 <= |content| - pos);
      if eof {
        return [], true;
      }
      var n :| 0 < n <= max && n <= |content| - pos;
      buf := content[pos..pos + n];
      pos := pos + n;
    }
  }

  /** The copy loop of encryptFile, on a handle just opened for writing. The result reports a short write. */
  method EncryptFile(f: OpenFile, src: SourceFile) returns (ok: bool)
    requires f.Valid() && f.ID.None? && src.Valid() && src.pos == 0
    requires Addressable(f.be, Max(|f.Contents()|, |src.content|))
    modifies f`ID, f.fd, src
    ensures ok && f.Valid() && f.Contents() == src.content
  {
    hide Intact, Addressable, StartsInReach, WriteView, NoWrap, HeaderID, Overlay, Plain, CipherStart, Min;
    ghost var size := Max(|f.Contents()|, |src.content|);
    AddressableBelow(f.be, |f.Contents()|, size);
    var _ := f.Truncate(0);
    var off := 0;
    while true
      invariant f.Valid() && src.Valid() && off == src.pos && off == |f.Contents()|
      invariant f.Contents() == src.content[..off]
      decreases |src.content| - off
    {
      var buf, eof := src.Read(CHUNK);
      if |buf| > 0 {
        Append(f.be, f.ViewOf(), buf, size);
        assert src.content[..off] + buf == src.content[..off + |buf|];
        var w := f.WriteFile(off, buf);
        if w != |buf| {
          return false;
        }
        off := off + |buf|;
      }
      if eof {
        break;
      }
    }
    ok := true;
  }

  /** Writing at the end appends. */
  lemma Append(be: ContentEnc, v: View, d: bytes, size: nat)
    requires |v.plain| + |d| <= size && Addressable(be, size) && |d| <= MAX_KERNEL_WRITE
    ensures Addressable(be, |v.plain| + |d|) && StartsInReach(be, |v.plain|, |v.plain|)
    ensures WriteView(v, |v.plain|, d) == View(v.plain + d, true)
  {
    hide Addressable;
    AddressableBelow(be, |v.plain| + |d|, size);
  }

  /** The copy loop of decryptFileToDisk: it stops at the first read that returns nothing. */
  method DecryptFileToDisk(f: OpenFile) returns (out: bytes)
    requires f.Valid() && Addressable(f.be, |f.Contents()| + CHUNK)
    modifies f`ID
    ensures f.Valid() && out == f.Contents() == old(f.Contents())
  {
    hide Intact, Addressable, ReadView, NoWrap;
    out := [];
    var off := 0;
    while true
      invariant f.Valid() && f.Contents() == old(f.Contents())
      invariant off <= |f.Contents()| && out == f.Contents()[..off]
      decreases |f.Contents()| - off
    {
      AddressableBelow(f.be, off + CHUNK, |f.Contents()| + CHUNK);
      var buf := f.ReadFile(off, CHUNK);
      if |buf| == 0 {
        break;
      }
      out := out + buf;
      off := off + |buf|;
    }
  }

  /** Any content, read in any pattern of short reads, comes back as it was, through a second handle. */
  method EncryptThenDecrypt(be: ContentEnc, fd: BackingFile, numCPU: nat, content: bytes) returns (out: bytes)
    requires Intact(be, fd.data) && Addressable(be, Max(|Plain(be, fd.data)|, |content| + CHUNK))
    modifies fd
    ensures out == content
  {
    hide Intact, Addressable, Plain, HeaderID, CipherStart, COff, POff, BlockNo, PlainOf;
    ghost var size := |Plain(be, fd.data)|;
    AddressableBelow(be, Max(size, |content|), Max(size, |content| + CHUNK));
    AddressableBelow(be, |content| + CHUNK, Max(size, |content| + CHUNK));
    var src := new SourceFile(content);
    var f := new OpenFile(be, fd, numCPU);
    var _ := EncryptFile(f, src);
    var g := new OpenFile(be, fd, numCPU);
    out := DecryptFileToDisk(g);
  }
}
