/**
 What one encrypted directory stands for: a map from plain names to nodes. Entries the volume
 keeps for itself (the directory IV, the configuration, name files of long names, a directory
 IV on its way out) stand for nothing.
 */
module DirImage {
  import opened Bytes
  import opened Names

  datatype Node = FileNode(data: bytes) | DirNode(id: nat)

  type Dir = map<bytes, Node>

  /** Directories by number. */
  type Dirs = map<nat, Dir>

  const TEMP_PREFIX: bytes := Ascii("gocryptfs.diriv.rmdir.")

  predicate IsTemp(c: bytes) { HasPrefix(c, TEMP_PREFIX) }

  lemma TempNames(c: bytes)
    ensures IsTemp(c) <==>
      && 22 <= |c|
      && c[..10] == [103, 111, 99, 114, 121, 112, 116, 102, 115, 46]
      && c[10..22] == [100, 105, 114, 105, 118, 46, 114, 109, 100, 105, 114, 46]
  {
    SameAscii("gocryptfs.diriv.rmdir.",
      [103, 111, 99, 114, 121, 112, 116, 102, 115, 46, 100, 105, 114, 105, 118, 46, 114, 109, 100, 105, 114, 46]);
    if 22 <= |c| {
      assert c[..22] == c[..10] + c[10..22];
      assert c[..10] == c[..22][..10] && c[10..22] == c[..22][10..];
    }
  }

  /** Names that never stand for a plain name. */
  predicate Own(c: bytes) { c == DIR_IV_FILENAME || c == CONF_NAME || IsTemp(c) || NameType(c) == LongNameFilename }

  function RemoveLongNameSuffix(c: bytes): bytes
    requires |LONG_NAME_SUFFIX| <= |c|
  {
    c[..|c| - |LONG_NAME_SUFFIX|]
  }

  /** The name file of h is there and the name it stores hashes to h. */
  predicate GoodNameFile(n: NameTransform, e: Dir, h: bytes) {
    NameFile(h) in e && e[NameFile(h)].FileNode? && HashLongName(n, e[NameFile(h)].data) == h
  }

  lemma GoodIsThere(n: NameTransform, e: Dir, h: bytes)
    requires GoodNameFile(n, e, h)
    ensures NameFile(h) in e && e[NameFile(h)].FileNode?
  {
  }

  /** No long-named entry without its name. */
  ghost predicate DirSafe(n: NameTransform, e: Dir) {
    forall c | c in e :: IsLongContent(c) ==> GoodNameFile(n, e, c)
  }

  function Iv(e: Dir): bytes {
    if DIR_IV_FILENAME in e && e[DIR_IV_FILENAME].FileNode? then e[DIR_IV_FILENAME].data else []
  }

  /** ReadDirIVAt: sixteen bytes, not all zero. */
  predicate HasIv(e: Dir) {
    DIR_IV_FILENAME in e && e[DIR_IV_FILENAME].FileNode? && |Iv(e)| == 16 && Iv(e) != Zeros(16)
  }

  /** The IV of a directory: sixteen bytes, not all zero, in a file of that name. */
  lemma IvFormat(e: Dir, iv: bytes)
    ensures HasIv(e) && Iv(e) == iv <==>
      && [103, 111, 99, 114, 121, 112, 116, 102, 115, 46, 100, 105, 114, 105, 118] in e
      && e[[103, 111, 99, 114, 121, 112, 116, 102, 115, 46, 100, 105, 114, 105, 118]] == FileNode(iv)
      && |iv| == 16 && exists i :: 0 <= i < 16 && iv[i] != 0
  {
    hide Ascii;
    OwnNames();
    if |iv| == 16 && forall i | 0 <= i < 16 :: iv[i] == 0 {
      assert iv == Zeros(16);
    }
  }

  /** Every plain name has its entry, with a name file if it is long. */
  ghost predicate Holds(n: NameTransform, e: Dir, iv: bytes, plain: Dir) {
    forall p | p in plain ::
      && IsValidName(p)
      && var c := EntryName(n, p, iv);
      && c in e && e[c] == plain[p] && (IsLongContent(c) ==> GoodNameFile(n, e, c))
  }

  /** Every other entry is one of the volume's own, and name files are right. */
  ghost predicate OnlyHolds(n: NameTransform, e: Dir, iv: bytes, plain: Dir) {
    forall c | c in e ::
      && (!Own(c) ==> exists p :: p in plain && IsValidName(p) && c == EntryName(n, p, iv))
      && (NameType(c) == LongNameFilename ==>
            HasSuffix(c, LONG_NAME_SUFFIX) && GoodNameFile(n, e, RemoveLongNameSuffix(c)))
  }

  ghost predicate Represents(n: NameTransform, e: Dir, plain: Dir) {
    HasIv(e) && Holds(n, e, Iv(e), plain) && OnlyHolds(n, e, Iv(e), plain)
  }

  lemma PlainNamesValid(n: NameTransform, e: Dir, plain: Dir)
    requires Represents(n, e, plain)
    ensures forall p | p in plain :: IsValidName(p)
  {
    hide IsValidName, EntryName, GoodNameFile;
  }

  // ---------- the kinds of entries do not overlap ----------

  lemma TempConstants()
    ensures |TEMP_PREFIX| == 22 && TEMP_PREFIX[9] == DOT && TEMP_PREFIX[10] == 100
  {
    assert "gocryptfs.diriv.rmdir."[9] == '.' && "gocryptfs.diriv.rmdir."[10] == 'd';
  }

  lemma EntryIsNotOwn(n: NameTransform, p: bytes, iv: bytes)
    requires IsValidName(p)
    ensures var c := EntryName(n, p, iv);
      && !Own(c) && (IsLongContent(c) ==> c == HashLongName(n, EncryptRaw(n, p, iv)))
      && (!IsLongContent(c) ==> c == EncryptRaw(n, p, iv))
  {
    hide EncryptRaw, Ascii;
    Constants();
    TempConstants();
    EncryptedIsOrdinary(n, p, iv);
    EncryptedAlphabet(n, p, iv);
    HashedKinds(n, EncryptRaw(n, p, iv));
    var c, x := EntryName(n, p, iv), EncryptRaw(n, p, iv);
    assert |x| > 9 ==> x[9] in x && x[9] != DOT;
    if |x| > n.longNameMax {
      assert c[10] == c[..19][10];
    }
  }

  lemma NameFileIsOwn(h: bytes)
    requires IsLongContent(h)
    ensures NameType(NameFile(h)) == LongNameFilename && Own(NameFile(h)) && !IsTemp(NameFile(h))
    ensures NameFile(h) != DIR_IV_FILENAME && NameFile(h) != CONF_NAME && NameFile(h) != h
    ensures HasSuffix(NameFile(h), LONG_NAME_SUFFIX) && RemoveLongNameSuffix(NameFile(h)) == h
  {
    hide Ascii;
    Constants();
    TempConstants();
    assert NameFile(h)[..19] == h[..19];
    assert NameFile(h)[10] == h[..19][10];
    assert NameFile(h)[|h|..] == LONG_NAME_SUFFIX;
  }

  lemma OwnKinds(c: bytes)
    ensures IsTemp(c) ==> NameType(c) == LongNameNone && c != DIR_IV_FILENAME && c != CONF_NAME
    ensures NameType(DIR_IV_FILENAME) == LongNameNone && !IsTemp(DIR_IV_FILENAME) && DIR_IV_FILENAME != CONF_NAME
    ensures NameType(CONF_NAME) == LongNameNone
  {
    hide Ascii;
    Constants();
    TempConstants();
    if IsTemp(c) {
      assert c[..19][10] == c[..22][10];
    }
  }

  /** A directory that represents something is safe. */
  lemma RepresentsIsSafe(n: NameTransform, e: Dir, plain: Dir)
    requires Represents(n, e, plain)
    ensures DirSafe(n, e)
  {
    hide EntryName, GoodNameFile, NameType, IsTemp;
    forall c | c in e && IsLongContent(c)
      ensures GoodNameFile(n, e, c)
    {
      OwnKinds(c);
      assert !Own(c);
      var p :| p in plain && IsValidName(p) && c == EntryName(n, p, Iv(e));
    }
  }

  // ---------- changing one entry ----------

  /** Put a node under the entry of a valid name. */
  lemma PutEntry(n: NameTransform, e: Dir, plain: Dir, p: bytes, node: Node)
    requires Represents(n, e, plain) && IsValidName(p)
    requires var c := EntryName(n, p, Iv(e)); IsLongContent(c) ==> GoodNameFile(n, e, c)
    ensures Represents(n, e[EntryName(n, p, Iv(e)) := node], plain[p := node])
  {
    hide EntryName, NameType, IsTemp, GoodNameFile, IsValidName, RemoveLongNameSuffix, HasSuffix;
    var iv := Iv(e);
    var c := EntryName(n, p, iv);
    var e', plain' := e[c := node], plain[p := node];
    EntryIsNotOwn(n, p, iv);
    NameFilesKept(n, e, e', c);
    assert Iv(e') == iv;
    forall q | q in plain'
      ensures IsValidName(q) && var d := EntryName(n, q, iv);
        d in e' && e'[d] == plain'[q] && (IsLongContent(d) ==> GoodNameFile(n, e', d))
    {
      EntryNameInjective(n, p, q, iv);
    }
    forall d | d in e' && !Own(d)
      ensures exists q :: q in plain' && IsValidName(q) && d == EntryName(n, q, iv)
    {
      if d == c {
        assert p in plain';
      } else {
        var q :| q in plain && IsValidName(q) && d == EntryName(n, q, iv);
        assert q in plain';
      }
    }
  }

  /** Changing an entry that is no name file keeps every name file. */
  lemma NameFilesKept(n: NameTransform, e: Dir, e': Dir, c: bytes)
    requires NameType(c) != LongNameFilename
    requires SameBut(e, e', c)
    ensures forall h :: GoodNameFile(n, e, h) <==> GoodNameFile(n, e', h)
  {
    hide NameType, HashLongName;
    forall h ensures GoodNameFile(n, e, h) <==> GoodNameFile(n, e', h) {
      if GoodNameFile(n, e, h) { HashedKinds(n, e[NameFile(h)].data); }
      if GoodNameFile(n, e', h) { HashedKinds(n, e'[NameFile(h)].data); }
    }
  }

  lemma DropEntry(n: NameTransform, e: Dir, plain: Dir, p: bytes)
    requires Represents(n, e, plain) && IsValidName(p)
    ensures Represents(n, e - {EntryName(n, p, Iv(e))}, plain - {p})
  {
    hide EntryName, NameType, IsTemp, GoodNameFile, IsValidName, RemoveLongNameSuffix, HasSuffix;
    var iv := Iv(e);
    var c := EntryName(n, p, iv);
    var e', plain' := e - {c}, plain - {p};
    EntryIsNotOwn(n, p, iv);
    NameFilesKept(n, e, e', c);
    assert Iv(e') == iv;
    forall q | q in plain'
      ensures IsValidName(q) && var d := EntryName(n, q, iv);
        d in e' && e'[d] == plain'[q] && (IsLongContent(d) ==> GoodNameFile(n, e', d))
    {
      EntryNameInjective(n, p, q, iv);
    }
    forall d | d in e' && !Own(d)
      ensures exists q :: q in plain' && IsValidName(q) && d == EntryName(n, q, iv)
    {
      var q :| q in plain && IsValidName(q) && d == EntryName(n, q, iv);
      assert q in plain';
    }
  }

  /** e and e2 agree except perhaps at c. */
  ghost predicate SameBut(e: Dir, e2: Dir, c: bytes) {
    forall d | d != c :: (d in e <==> d in e2) && (d in e ==> e[d] == e2[d])
  }

  /** Coming and going of an entry of the volume's own changes nothing, as long as no long name loses its name file. */
  lemma OwnChange(n: NameTransform, e: Dir, e2: Dir, plain: Dir, c: bytes)
    requires Represents(n, e, plain) && SameBut(e, e2, c) && Own(c) && c != DIR_IV_FILENAME
    requires NameType(c) == LongNameFilename ==> HasSuffix(c, LONG_NAME_SUFFIX)
    requires NameType(c) == LongNameFilename ==>
      GoodNameFile(n, e2, RemoveLongNameSuffix(c)) || (c !in e2 && RemoveLongNameSuffix(c) !in e)
    ensures Represents(n, e2, plain)
  {
    hide EntryName, NameType, IsTemp, IsValidName, HashLongName;
    var iv := Iv(e);
    assert Iv(e2) == iv;
    forall q | q in plain
      ensures IsValidName(q) && var d := EntryName(n, q, iv);
        d in e2 && e2[d] == plain[q] && (IsLongContent(d) ==> GoodNameFile(n, e2, d))
    {
      var d := EntryName(n, q, iv);
      EntryIsNotOwn(n, q, iv);
      if IsLongContent(d) {
        NameFileIsOwn(d);
      }
    }
    forall d | d in e2
      ensures NameType(d) == LongNameFilename ==>
        HasSuffix(d, LONG_NAME_SUFFIX) && GoodNameFile(n, e2, RemoveLongNameSuffix(d))
    {
      if d != c && NameType(d) == LongNameFilename {
        SuffixRemoved(d);
      }
    }
  }

  lemma SuffixRemoved(c: bytes)
    requires HasSuffix(c, LONG_NAME_SUFFIX)
    ensures NameFile(RemoveLongNameSuffix(c)) == c
  {
  }

  /** Safety survives any change of the name file of h while h itself is absent. */
  lemma SafeNameFileChange(n: NameTransform, e: Dir, e2: Dir, h: bytes)
    requires DirSafe(n, e) && SameBut(e, e2, NameFile(h)) && IsLongContent(h) && h !in e
    ensures DirSafe(n, e2)
  {
    hide NameType, HashLongName, NameFile;
    NameFileIsOwn(h);
    forall c | c in e2 && IsLongContent(c)
      ensures GoodNameFile(n, e2, c)
    {
      NameFileIsOwn(c);
      NameFileInjective(c, h);
    }
  }

  /** A long-named entry whose name file is gone is not safe. */
  lemma NamelessIsUnsafe(n: NameTransform, e: Dir, h: bytes)
    requires h in e && IsLongContent(h) && NameFile(h) !in e
    ensures !DirSafe(n, e)
  {
  }

  /** Which plain name, if any, an entry stands for. */
  lemma EntryLookup(n: NameTransform, e: Dir, plain: Dir, p: bytes)
    requires Represents(n, e, plain) && IsValidName(p)
    ensures EntryName(n, p, Iv(e)) in e <==> p in plain
    ensures p in plain ==> e[EntryName(n, p, Iv(e))] == plain[p]
    ensures p in plain && IsLongContent(EntryName(n, p, Iv(e))) ==> GoodNameFile(n, e, EntryName(n, p, Iv(e)))
  {
    hide EntryName, NameType, IsTemp, GoodNameFile, IsValidName, RemoveLongNameSuffix, HasSuffix;
    EntryIsNotOwn(n, p, Iv(e));
    if EntryName(n, p, Iv(e)) in e {
      var q :| q in plain && IsValidName(q) && EntryName(n, p, Iv(e)) == EntryName(n, q, Iv(e));
      EntryNameInjective(n, p, q, Iv(e));
    }
  }

  /** The name file of a long entry, whenever there is one, stores the encrypted name. */
  lemma NameFileStores(n: NameTransform, e: Dir, plain: Dir, p: bytes)
    requires Represents(n, e, plain) && IsValidName(p) && IsLongContent(EntryName(n, p, Iv(e)))
    requires NameFile(EntryName(n, p, Iv(e))) in e
    ensures GoodNameFile(n, e, EntryName(n, p, Iv(e)))
    ensures e[NameFile(EntryName(n, p, Iv(e)))] == FileNode(EncryptRaw(n, p, Iv(e)))
  {
    hide EntryName, NameType, IsTemp, IsValidName, HasSuffix, HashLongName;
    var h := EntryName(n, p, Iv(e));
    NameFileIsOwn(h);
    EntryIsNotOwn(n, p, Iv(e));
    HashInjective(n, e[NameFile(h)].data, EncryptRaw(n, p, Iv(e)));
  }
}
