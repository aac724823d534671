/**
 Encrypted file names (names.go, longnames.go, valid.go): a name is padded, encrypted with EME
 under the IV of its directory and written in base64; a result that is too long is replaced by
 its hash and kept in a separate ".name" file.
 */
module Names {
  import opened Bytes
  import opened Pad16
  import opened Base64

  const NAME_MAX: nat := 255
  const NAME_FILE_MAX: nat := 344

  // ---------- the primitives ----------

  /** EME: a length-preserving permutation of whole blocks, for every IV. */
  datatype Eme = Eme(encrypt: (bytes, bytes) -> bytes, decrypt: (bytes, bytes) -> bytes)

  ghost predicate EmeContract(e: Eme) {
    && (forall iv, b :: |b| % BLOCK_SIZE == 0 ==> |e.encrypt(iv, b)| == |b| && e.decrypt(iv, e.encrypt(iv, b)) == b)
    && (forall iv, c :: |c| % BLOCK_SIZE == 0 ==> |e.decrypt(iv, c)| == |c| && e.encrypt(iv, e.decrypt(iv, c)) == c)
  }

  /** SHA-256 is taken to be free of collisions, which no function of bounded length is; its length is left open. */
  ghost predicate HashContract(h: bytes -> bytes) {
    && (forall x, y :: h(x) == h(y) ==> x == y)
    && (forall x :: |h(x)| >= 32)
  }

  datatype RawNameTransform = NameTransform(eme: Eme, sha256: bytes -> bytes, longNameMax: nat, raw64: bool)

  ghost predicate ValidNameTransform(n: RawNameTransform) { EmeContract(n.eme) && HashContract(n.sha256) }

  type NameTransform = n: RawNameTransform | ValidNameTransform(n) ghost witness ToyNameTransform()

  ghost function ToyNameTransform(): (n: RawNameTransform)
    ensures ValidNameTransform(n)
  {
    var h := (x: bytes) => Zeros(32) + x;
    assert HashContract(h) by {
      forall x, y | h(x) == h(y) ensures x == y {
        assert h(x)[32..] == x && h(y)[32..] == y;
      }
    }
    NameTransform(Eme((iv, b) => b, (iv, c) => c), h, NAME_MAX, true)
  }

  // ---------- plain names and their encryption ----------

  const DOT: byte := 46
  const SLASH: byte := 47

  predicate IsValidName(name: bytes) {
    && 0 < |name| <= NAME_MAX
    && 0 !in name && SLASH !in name
    && name != [DOT] && name != [DOT, DOT]
  }

  /** A name has 1 to 255 bytes, no NUL and no slash, and is not made of one or two dots. */
  lemma ValidNames(name: bytes)
    ensures IsValidName(name) <==>
      && 1 <= |name| <= 255 && (forall c | c in name :: c != 0 && c != 47)
      && (|name| <= 2 ==> exists c :: c in name && c != 46)
  {
    if 1 <= |name| <= 2 && forall c | c in name :: c == 46 {
      assert name[0] in name && name[|name| - 1] in name;
      assert name == [46] || name == [46, 46];
    }
    if |name| <= 2 && exists c :: c in name && c != 46 {
      assert name != [46] && name != [46, 46];
    }
  }

  /** encryptName: no check of the name. */
  function EncryptRaw(n: NameTransform, name: bytes, iv: bytes): bytes {
    Encode(n.raw64, n.eme.encrypt(iv, Padded(name)))
  }

  function EncryptName(n: NameTransform, name: bytes, iv: bytes): Option<bytes> {
    if IsValidName(name) then Some(EncryptRaw(n, name, iv)) else None
  }

  lemma EncryptOfValid(n: NameTransform, q: bytes, iv: bytes)
    requires IsValidName(q)
    ensures EncryptName(n, q, iv) == Some(EncryptRaw(n, q, iv))
  {
  }

  /** decryptName: no check of the result. */
  function DecryptRaw(n: NameTransform, cipherName: bytes, iv: bytes): Option<bytes> {
    if 13 in cipherName || 10 in cipherName then None
    else
      var bin := Decode(n.raw64, cipherName);
      if bin.None? || bin.value == [] || |bin.value| % BLOCK_SIZE != 0 then None
      else Unpadded(n.eme.decrypt(iv, bin.value))
  }

  function DecryptName(n: NameTransform, cipherName: bytes, iv: bytes): Option<bytes> {
    var r := DecryptRaw(n, cipherName, iv);
    if r.Some? && IsValidName(r.value) then r else None
  }

  lemma PaddedLength(name: bytes)
    ensures |Padded(name)| % BLOCK_SIZE == 0 && |Padded(name)| == 16 * (|name| / 16 + 1)
  {
  }

  lemma EncryptedAlphabet(n: NameTransform, name: bytes, iv: bytes)
    ensures forall c | c in EncryptRaw(n, name, iv) :: c != DOT && c != 13 && c != 10
  {
    EncodeAlphabet(n.raw64, n.eme.encrypt(iv, Padded(name)));
  }

  /** Decryption accepts exactly the encryptions of non-empty names under the same IV. */
  lemma DecryptRawInverts(n: NameTransform, c: bytes, name: bytes, iv: bytes)
    ensures DecryptRaw(n, c, iv) == Some(name) <==> name != [] && c == EncryptRaw(n, name, iv)
  {
    hide Padded, Unpadded, Encode, Decode;
    var padded := Padded(name);
    PaddedLength(name);
    var bin := n.eme.encrypt(iv, padded);
    EncryptedAlphabet(n, name, iv);
    DecodeInvertsEncode(n.raw64, c, bin);
    UnpadInvertsPad(padded, name);
    var d := Decode(n.raw64, c);
    if d.Some? && |d.value| % BLOCK_SIZE == 0 {
      UnpadInvertsPad(n.eme.decrypt(iv, d.value), name);
    }
  }

  /** The same for the public functions: the name codec is a bijection onto what it accepts. */
  lemma DecryptInvertsEncrypt(n: NameTransform, c: bytes, name: bytes, iv: bytes)
    ensures DecryptName(n, c, iv) == Some(name) <==> EncryptName(n, name, iv) == Some(c)
  {
    hide EncryptRaw, DecryptRaw;
    DecryptRawInverts(n, c, name, iv);
  }

  /**
   The format: a padded name under EME, with the IV of the directory, in base64url. What decrypts so is the name,
   and nothing else is written for it.
   */
  lemma NameFormat(n: NameTransform, name: bytes, iv: bytes, b: bytes)
    requires 1 <= |name| <= 255 && (forall c | c in name :: c != 0 && c != 47)
    requires |name| <= 2 ==> exists c :: c in name && c != 46
    requires |b| % 16 == 0
    requires var y := n.eme.decrypt(iv, b);
      && |name| < |y| <= |name| + 16 && y[..|name|] == name
      && forall i | |name| <= i < |y| :: y[i] as int == |y| - |name|
    ensures EncryptName(n, name, iv) == Some(Encode(n.raw64, b))
    ensures DecryptName(n, Encode(n.raw64, b), iv) == Some(name)
  {
    hide Padded, Encode;
    PaddedBytes(name, n.eme.decrypt(iv, b));
    ValidNames(name);
    DecryptInvertsEncrypt(n, Encode(n.raw64, b), name, iv);
  }

  // ---------- long names ----------

  function Ascii(s: string): bytes { seq(|s|, i requires 0 <= i < |s| => (s[i] as int % 256) as byte) }

  const LONG_NAME_PREFIX: bytes := Ascii("gocryptfs.longname.")
  const LONG_NAME_SUFFIX: bytes := Ascii(".name")
  const DIR_IV_FILENAME: bytes := Ascii("gocryptfs.diriv")
  const CONF_NAME: bytes := Ascii("gocryptfs.conf")

  predicate HasPrefix(s: bytes, p: bytes) { |p| <= |s| && s[..|p|] == p }

  predicate HasSuffix(s: bytes, p: bytes) { |p| <= |s| && s[|s| - |p|..] == p }

  datatype Kind = LongNameContent | LongNameFilename | LongNameNone

  function NameType(cName: bytes): Kind {
    if !HasPrefix(cName, LONG_NAME_PREFIX) then LongNameNone
    else if HasSuffix(cName, LONG_NAME_SUFFIX) then LongNameFilename
    else LongNameContent
  }

  predicate IsLongContent(cName: bytes) { NameType(cName) == LongNameContent }

  function HashLongName(n: NameTransform, name: bytes): bytes { LONG_NAME_PREFIX + Encode(n.raw64, n.sha256(name)) }

  function NameFile(hashName: bytes): bytes { hashName + LONG_NAME_SUFFIX }

  datatype NameResult = NameOK(cName: bytes) | ENAMETOOLONG | EBADMSG

  function EncryptAndHashName(n: NameTransform, name: bytes, iv: bytes): NameResult {
    if |name| > NAME_MAX then ENAMETOOLONG
    else
      var c := EncryptName(n, name, iv);
      if c.None? then EBADMSG
      else if |c.value| > n.longNameMax then NameOK(HashLongName(n, c.value))
      else NameOK(c.value)
  }

  /** The directory entry that stands for a valid name. */
  function EntryName(n: NameTransform, name: bytes, iv: bytes): (c: bytes)
    requires IsValidName(name)
    ensures EncryptAndHashName(n, name, iv) == NameOK(c)
  {
    EncryptAndHashName(n, name, iv).cName
  }

  lemma NameOKIsValid(n: NameTransform, p: bytes, iv: bytes)
    ensures EncryptAndHashName(n, p, iv).NameOK? <==> IsValidName(p)
  {
  }

  lemma Constants()
    ensures |LONG_NAME_PREFIX| == 19 && LONG_NAME_PREFIX[9] == DOT && LONG_NAME_PREFIX[18] == DOT
    ensures LONG_NAME_PREFIX[10] == 108
    ensures |LONG_NAME_SUFFIX| == 5 && LONG_NAME_SUFFIX[0] == DOT
    ensures |DIR_IV_FILENAME| == 15 && DIR_IV_FILENAME[9] == DOT && DIR_IV_FILENAME[10] == 100
    ensures |CONF_NAME| == 14 && CONF_NAME[9] == DOT && CONF_NAME[10] == 99
  {
    assert "gocryptfs.longname."[9] == '.' && "gocryptfs.longname."[18] == '.' && "gocryptfs.longname."[10] == 'l';
    assert ".name"[0] == '.';
    assert "gocryptfs.diriv"[9] == '.' && "gocryptfs.diriv"[10] == 'd';
    assert "gocryptfs.conf"[9] == '.' && "gocryptfs.conf"[10] == 'c';
  }

  /** The names a volume keeps for itself, byte by byte. */
  lemma OwnNames()
    ensures LONG_NAME_PREFIX ==
      [103, 111, 99, 114, 121, 112, 116, 102, 115, 46, 108, 111, 110, 103, 110, 97, 109, 101, 46]
    ensures LONG_NAME_SUFFIX == [46, 110, 97, 109, 101]
    ensures DIR_IV_FILENAME == [103, 111, 99, 114, 121, 112, 116, 102, 115, 46, 100, 105, 114, 105, 118]
    ensures CONF_NAME == [103, 111, 99, 114, 121, 112, 116, 102, 115, 46, 99, 111, 110, 102]
  {
    SameAscii("gocryptfs.longname.",
      [103, 111, 99, 114, 121, 112, 116, 102, 115, 46, 108, 111, 110, 103, 110, 97, 109, 101, 46]);
    SameAscii(".name", [46, 110, 97, 109, 101]);
    SameAscii("gocryptfs.diriv", [103, 111, 99, 114, 121, 112, 116, 102, 115, 46, 100, 105, 114, 105, 118]);
    SameAscii("gocryptfs.conf", [103, 111, 99, 114, 121, 112, 116, 102, 115, 46, 99, 111, 110, 102]);
  }

  lemma SameAscii(s: string, b: bytes)
    requires |s| == |b| && forall i | 0 <= i < |s| :: s[i] as int == b[i] as int
    ensures Ascii(s) == b
  {
  }

  /** An encrypted name cannot be mistaken for a file the volume keeps for itself. */
  lemma EncryptedIsOrdinary(n: NameTransform, name: bytes, iv: bytes)
    ensures var c := EncryptRaw(n, name, iv);
      NameType(c) == LongNameNone && c != DIR_IV_FILENAME && c != CONF_NAME
  {
    hide EncryptRaw, Ascii;
    Constants();
    EncryptedAlphabet(n, name, iv);
    var c := EncryptRaw(n, name, iv);
    assert |c| > 9 ==> c[9] in c && c[9] != DOT;
  }

  /** A hashed name is long content, and its name file is a name file: the suffix cannot occur in a hash. */
  lemma HashedKinds(n: NameTransform, name: bytes)
    ensures var h := HashLongName(n, name);
      && NameType(h) == LongNameContent && h != DIR_IV_FILENAME && h != CONF_NAME
      && NameType(NameFile(h)) == LongNameFilename && NameFile(h) != DIR_IV_FILENAME && NameFile(h) != CONF_NAME
  {
    hide Ascii, Encode;
    Constants();
    var e := Encode(n.raw64, n.sha256(name));
    EncodeAlphabet(n.raw64, n.sha256(name));
    EncodeLength(n.raw64, n.sha256(name));
    var h := HashLongName(n, name);
    assert h[..19] == LONG_NAME_PREFIX;
    assert NameFile(h)[..19] == LONG_NAME_PREFIX;
    assert NameFile(h)[|h|..] == LONG_NAME_SUFFIX;
    assert h[|h| - 5] == e[|e| - 5];
    assert h[|h| - 5] in e;
    assert h[|h| - 5..][0] != DOT;
  }

  lemma HashInjective(n: NameTransform, a: bytes, b: bytes)
    ensures HashLongName(n, a) == HashLongName(n, b) <==> a == b
  {
    hide Encode;
    if HashLongName(n, a) == HashLongName(n, b) {
      var k := |LONG_NAME_PREFIX|;
      assert HashLongName(n, a)[k..] == Encode(n.raw64, n.sha256(a));
      assert HashLongName(n, b)[k..] == Encode(n.raw64, n.sha256(b));
      DecodeInvertsEncode(n.raw64, Encode(n.raw64, n.sha256(a)), n.sha256(a));
      DecodeInvertsEncode(n.raw64, Encode(n.raw64, n.sha256(a)), n.sha256(b));
    }
  }

  lemma NameFileInjective(a: bytes, b: bytes)
    ensures NameFile(a) == NameFile(b) <==> a == b
  {
    if NameFile(a) == NameFile(b) {
      assert a == NameFile(a)[..|a|] && b == NameFile(b)[..|b|];
    }
  }

  lemma EncryptInjective(n: NameTransform, p: bytes, q: bytes, iv: bytes)
    requires p != [] && q != []
    ensures EncryptRaw(n, p, iv) == EncryptRaw(n, q, iv) <==> p == q
  {
    hide EncryptRaw, DecryptRaw;
    DecryptRawInverts(n, EncryptRaw(n, p, iv), p, iv);
    DecryptRawInverts(n, EncryptRaw(n, p, iv), q, iv);
  }

  /** Within a directory, different names get different entries, hashed or not. */
  lemma EntryNameInjective(n: NameTransform, p: bytes, q: bytes, iv: bytes)
    requires IsValidName(p) && IsValidName(q)
    ensures EntryName(n, p, iv) == EntryName(n, q, iv) <==> p == q
  {
    hide EncryptRaw, HashLongName;
    EncryptInjective(n, p, q, iv);
    EncryptedIsOrdinary(n, p, iv);
    EncryptedIsOrdinary(n, q, iv);
    HashedKinds(n, EncryptRaw(n, p, iv));
    HashedKinds(n, EncryptRaw(n, q, iv));
    HashInjective(n, EncryptRaw(n, p, iv), EncryptRaw(n, q, iv));
  }

  /** Length of the encryption of a name of k bytes: whole blocks, one more than needed, in base64. */
  function EncodedLength(raw64: bool, k: nat): nat {
    var padded := 16 * (k / 16 + 1);
    if raw64 then (padded * 8 + 5) / 6 else (padded + 2) / 3 * 4
  }

  /** Does a name get a hashed entry and a name file? The limit of the volume and the length decide. */
  predicate IsHashed(n: NameTransform, name: bytes) { EncodedLength(n.raw64, |name|) > n.longNameMax }

  /** For every limit: a name is hashed exactly when its encryption, whose length the IV does not change, exceeds it. */
  lemma HashedByLength(n: NameTransform, name: bytes, iv: bytes)
    requires IsValidName(name)
    ensures IsLongContent(EntryName(n, name, iv)) <==> IsHashed(n, name)
    ensures |EncryptRaw(n, name, iv)| == EncodedLength(n.raw64, |name|) <= NAME_FILE_MAX
  {
    hide Encode, Padded, HashLongName, NameType;
    PaddedLength(name);
    EncodeLength(n.raw64, n.eme.encrypt(iv, Padded(name)));
    EncryptedIsOrdinary(n, name, iv);
    HashedKinds(n, EncryptRaw(n, name, iv));
  }

  /** The entry of a name: its encryption, or above the limit the prefix and the hash of the encryption. */
  lemma EntryFormat(n: NameTransform, name: bytes, iv: bytes, c: bytes)
    requires IsValidName(name) && EncryptName(n, name, iv) == Some(c)
    ensures EntryName(n, name, iv) ==
      if |c| <= n.longNameMax then c
      else [103, 111, 99, 114, 121, 112, 116, 102, 115, 46, 108, 111, 110, 103, 110, 97, 109, 101, 46]
           + Encode(n.raw64, n.sha256(c))
    ensures NameFile(EntryName(n, name, iv)) == EntryName(n, name, iv) + [46, 110, 97, 109, 101]
  {
    hide Encode, EncryptRaw, Ascii;
    OwnNames();
  }

  /** At the default limit a name is hashed from 176 bytes on. */
  lemma HashedFrom176(n: NameTransform, name: bytes, iv: bytes)
    requires IsValidName(name) && n.longNameMax == NAME_MAX
    ensures IsHashed(n, name) <==> 176 <= |name|
    ensures IsLongContent(EntryName(n, name, iv)) <==> 176 <= |name|
  {
    HashedByLength(n, name, iv);
    var blocks := |name| / 16 + 1;
    assert 176 <= |name| <==> 12 <= blocks;
  }
}
