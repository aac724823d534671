/** Listing an encrypted directory in plain names (listDir in cli.go). */
module Listing {
  import opened Bytes
  import opened Names
  import opened DirImage

  /** ReadLongNameAt: the name file of c, if it is a file of a sensible size. */
  function ReadLongName(e: Dir, c: bytes): Option<bytes> {
    var f := NameFile(c);
    if f in e && e[f].FileNode? && 0 < |e[f].data| <= NAME_FILE_MAX then Some(e[f].data) else None
  }

  /** The name of a long entry c is read from c.name, up to 344 bytes. */
  lemma LongNameRead(e: Dir, c: bytes)
    ensures var f := c + [46, 110, 97, 109, 101];
      ReadLongName(e, c) == if f in e && e[f].FileNode? && 1 <= |e[f].data| <= 344 then Some(e[f].data) else None
  {
    hide Ascii;
    OwnNames();
  }

  /** What the loop makes of one directory entry: a plain name, or nothing to show. */
  function ListedName(n: NameTransform, e: Dir, isRoot: bool, c: bytes): Option<bytes> {
    if isRoot && c == CONF_NAME then None
    else if c == DIR_IV_FILENAME then None
    else match NameType(c)
      case LongNameFilename => None
      case LongNameNone => DecryptName(n, c, Iv(e))
      case LongNameContent =>
        var long := ReadLongName(e, c);
        if long.None? then None else DecryptName(n, long.value, Iv(e))
  }

  lemma EncryptedFitsNameFile(n: NameTransform, p: bytes, iv: bytes)
    requires IsValidName(p)
    ensures 0 < |EncryptRaw(n, p, iv)| <= NAME_FILE_MAX
  {
    hide IsValidName, Pad16.Padded, Base64.Encode;
    PaddedLength(p);
    Base64.EncodeLength(n.raw64, n.eme.encrypt(iv, Pad16.Padded(p)));
    assert 0 < |p| <= NAME_MAX by { ValidLength(p); }
  }

  lemma ValidLength(p: bytes)
    requires IsValidName(p)
    ensures 0 < |p| <= NAME_MAX
  {
  }

  /** An entry is listed as p exactly when it is the entry of the plain name p. */
  lemma ListedIsPlain(n: NameTransform, e: Dir, plain: Dir, isRoot: bool, c: bytes, p: bytes)
    requires Represents(n, e, plain) && c in e
    ensures ListedName(n, e, isRoot, c) == Some(p) <==> p in plain && IsValidName(p) && c == EntryName(n, p, Iv(e))
  {
    hide NameType, HashLongName, IsTemp, IsValidName, EncryptRaw, Represents, GoodNameFile, EntryName, DecryptName;
    OwnKinds(c);
    if IsValidName(p) {
      EntryLookup(n, e, plain, p);
      EntryIsNotOwn(n, p, Iv(e));
      EncryptedFitsNameFile(n, p, Iv(e));
      DecryptInvertsEncrypt(n, EncryptRaw(n, p, Iv(e)), p, Iv(e));
      if c == EntryName(n, p, Iv(e)) && p in plain && IsLongContent(c) {
        GoodIsThere(n, e, c);
        NameFileStores(n, e, plain, p);
      }
    }
    if ListedName(n, e, isRoot, c) == Some(p) {
      OrdinaryIsPlain(n, e, plain, c, p, isRoot);
    }
  }

  /** A listed entry is not one of the volume's own, so it stands for some plain name: the one listed. */
  lemma OrdinaryIsPlain(n: NameTransform, e: Dir, plain: Dir, c: bytes, p: bytes, isRoot: bool)
    requires Represents(n, e, plain) && c in e && ListedName(n, e, isRoot, c) == Some(p)
    ensures p in plain && IsValidName(p) && c == EntryName(n, p, Iv(e))
  {
    hide NameType, HashLongName, IsTemp, IsValidName, EncryptRaw, GoodNameFile, EntryName, DecryptName;
    OwnKinds(c);
    if c == CONF_NAME || IsTemp(c) { OwnNotListed(n, c, Iv(e)); }
    var q :| q in plain && IsValidName(q) && c == EntryName(n, q, Iv(e));
    EntryIsNotOwn(n, q, Iv(e));
    DecryptInvertsEncrypt(n, EncryptRaw(n, q, Iv(e)), q, Iv(e));
    EncryptOfValid(n, q, Iv(e));
    if IsLongContent(c) {
      GoodIsThere(n, e, c);
      NameFileStores(n, e, plain, q);
    }
  }

  /** The configuration file, and a directory IV on its way out, decrypt to nothing: their names have dots. */
  lemma OwnNotListed(n: NameTransform, c: bytes, iv: bytes)
    requires c == CONF_NAME || IsTemp(c)
    ensures DecryptName(n, c, iv) == None
  {
    hide EncryptRaw, Ascii, DecryptRaw;
    Constants();
    TempConstants();
    if IsTemp(c) { assert c[9] == c[..22][9]; }
    assert DOT in c by { assert c[9] == DOT; }
    if DecryptName(n, c, iv).Some? {
      var p := DecryptName(n, c, iv).value;
      DecryptRawInverts(n, c, p, iv);
      EncryptedAlphabet(n, p, iv);
      assert false;
    }
  }

  /** entries is the directory read in some order. */
  ghost predicate Enumerates(e: Dir, entries: seq<bytes>) {
    && (forall c :: c in entries <==> c in e)
    && (forall i, j | 0 <= i < j < |entries| :: entries[i] != entries[j])
  }

  /** Whatever the order of the entries: each plain name is listed once, with its node, and nothing else is. */
  method ListDir(n: NameTransform, e: Dir, isRoot: bool, entries: seq<bytes>, ghost plain: Dir)
    returns (out: seq<(bytes, Node)>)
    requires Represents(n, e, plain) && Enumerates(e, entries)
    ensures forall p, node :: (p, node) in out <==> p in plain && plain[p] == node
    ensures forall i, j | 0 <= i < j < |out| :: out[i].0 != out[j].0
  {
    hide Represents, ListedName, EntryName, IsValidName;
    out := [];
    ghost var from: seq<nat> := [];
    for i := 0 to |entries|
      invariant |from| == |out| && forall k | 0 <= k < |out| :: from[k] < i
      invariant forall k | 0 <= k < |out| ::
        ListedName(n, e, isRoot, entries[from[k]]) == Some(out[k].0) && out[k].0 in plain && plain[out[k].0] == out[k].1
      invariant forall k, m | 0 <= k < m < |out| :: from[k] < from[m]
      invariant forall j | 0 <= j < i :: ListedName(n, e, isRoot, entries[j]).Some? ==> j in from
    {
      var c := entries[i];
      assert c in e;
      var name := ListedName(n, e, isRoot, c);
      if name.Some? {
        ListedIsPlain(n, e, plain, isRoot, c, name.value);
        EntryLookup(n, e, plain, name.value);
        out := out + [(name.value, e[c])];
        from := from + [i];
      }
    }
    forall p | p in plain ensures (p, plain[p]) in out {
      var j := ListedAt(n, e, plain, isRoot, entries, p);
      assert j in from;
      var k :| 0 <= k < |from| && from[k] == j;
      assert out[k] == (p, plain[p]);
    }
    forall k, m | 0 <= k < m < |out| ensures out[k].0 != out[m].0 {
      if out[k].0 == out[m].0 {
        SameEntry(n, e, plain, isRoot, entries[from[k]], entries[from[m]], out[k].0);
      }
    }
  }

  /** Every plain name is listed for some entry. */
  lemma ListedAt(n: NameTransform, e: Dir, plain: Dir, isRoot: bool, entries: seq<bytes>, p: bytes) returns (j: nat)
    requires Represents(n, e, plain) && Enumerates(e, entries) && p in plain
    ensures j < |entries| && ListedName(n, e, isRoot, entries[j]) == Some(p)
  {
    hide Represents, ListedName, EntryName, IsValidName;
    PlainNamesValid(n, e, plain);
    EntryLookup(n, e, plain, p);
    var c := EntryName(n, p, Iv(e));
    assert c in entries;
    j :| 0 <= j < |entries| && entries[j] == c;
    ListedIsPlain(n, e, plain, isRoot, c, p);
  }

  /** No two entries are listed as the same name. */
  lemma SameEntry(n: NameTransform, e: Dir, plain: Dir, isRoot: bool, c: bytes, c': bytes, p: bytes)
    requires Represents(n, e, plain) && c in e && c' in e
    requires ListedName(n, e, isRoot, c) == Some(p) == ListedName(n, e, isRoot, c')
    ensures c == c'
  {
    hide Represents, ListedName, EntryName, IsValidName;
    ListedIsPlain(n, e, plain, isRoot, c, p);
    ListedIsPlain(n, e, plain, isRoot, c', p);
  }
}
